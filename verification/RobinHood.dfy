// The hash map of gold/robin_hood.hpp over its own two arrays, nodes and info bytes,
// against the finite map it stands for.
module RobinHood {
  import opened Powers
  import opened RobinHoodLayout
  import opened RobinHoodCrowding
  import opened LittleEndian

  datatype Node<K, V> = Node(first: K, second: V)

  function Firsts<K, V>(ns: seq<Node<K, V>>): seq<K> {
    seq(|ns|, i requires 0 <= i < |ns| => ns[i].first)
  }

  // The map that a placement of keys and the nodes stand for.
  ghost function ContentsOf<K, V>(pos: map<K, int>, ns: seq<Node<K, V>>): map<K, V>
    requires forall k :: k in pos ==> 0 <= pos[k] < |ns|
  {
    map k | k in pos :: ns[pos[k]].second
  }

  // Nodes ins..e-1 moved up by one and a new one put at ins.
  ghost predicate NodesInserted<K, V>(ns: seq<Node<K, V>>, ns': seq<Node<K, V>>, ins: int, e: int, nd: Node<K, V>) {
    && 0 <= ins <= e < |ns| == |ns'|
    && (forall p {:trigger ns'[p]} :: 0 <= p < |ns| ==>
          ns'[p] == if p == ins then nd else if ins < p <= e then ns[p - 1] else ns[p])
  }

  ghost predicate InfoInserted(was: seq<int>, now: seq<int>, ins: int, e: int, inc: int, x: int) {
    && 0 <= ins <= e < |was| == |now|
    && (forall p {:trigger now[p]} :: 0 <= p < |was| ==>
          now[p] == if p == ins then x % 256 else if ins < p <= e then (was[p - 1] + inc) % 256 else was[p])
  }

  // A move up, then the new node and its info in the slot made free.
  lemma NodesSet<K, V>(ns: seq<Node<K, V>>, mid: seq<Node<K, V>>, ins: int, e: int, nd: Node<K, V>)
    requires 0 <= ins <= e < |ns| == |mid|
    requires forall p {:trigger mid[p]} :: 0 <= p < |ns| && p != ins ==>
               mid[p] == if ins < p <= e then ns[p - 1] else ns[p]
    ensures NodesInserted(ns, mid[ins := nd], ins, e, nd)
  {}

  lemma InfoSet(was: seq<int>, mid: seq<int>, ins: int, e: int, inc: int, x: int)
    requires 0 <= ins <= e < |was| == |mid|
    requires forall p {:trigger mid[p]} :: 0 <= p < |was| ==>
               mid[p] == if ins < p <= e then (was[p - 1] + inc) % 256 else was[p]
    ensures InfoInserted(was, mid[ins := x % 256], ins, e, inc, x)
  {}

  lemma InsertedHeadroom(was: seq<int>, now: seq<int>, n: int, ins: int, e: int, inc: int, x: int)
    requires InfoInserted(was, now, ins, e, inc, x) && Headroom(was, n, inc)
    requires 0 <= x && x + inc <= 0xFF && inc >= 0 && forall p :: ins < p <= e ==> now[p] + inc <= 0xFF
    ensures Headroom(now, n, inc)
  {
    forall p | 0 <= p < n && p < |now| ensures now[p] + inc <= 0xFF {}
  }

  lemma FullByte(info: seq<int>, n: int, inc: int, p: int)
    requires 0 <= p < n && p < |info| && info[p] + inc > 0xFF
    ensures !Headroom(info, n, inc)
  {}

  lemma InsertedFull(was: seq<int>, now: seq<int>, n: int, ins: int, e: int, inc: int, x: int)
    requires InfoInserted(was, now, ins, e, inc, x) && 0 <= x <= 0xFF && x + inc > 0xFF && ins < n
    ensures !Headroom(now, n, inc)
  {
    assert now[ins] == x;
  }

  lemma InsertedSize<K(!new)>(pos: map<K, int>, ins: int, e: int, k: K)
    requires k !in pos
    ensures |InsertedPos(pos, ins, e, k)| == |pos| + 1
  {
    assert InsertedPos(pos, ins, e, k).Keys == pos.Keys + {k};
  }

  // Where every byte moved still has headroom, the byte arithmetic does not wrap.
  lemma InsertedLayout<K(!new), V>(hash: K -> nat, v: Layout<K>, v': Layout<K>, pos: map<K, int>,
                                   ns: seq<Node<K, V>>, ns': seq<Node<K, V>>, nd: Node<K, V>, x: int, ins: int, e: int)
    requires Inv(hash, v, pos) && nd.first !in pos && InsertionPoint(hash, v, nd.first, ins, x) && 0 <= x <= 0xFF
    requires v'.n == v.n && v'.inc == v.inc && v'.shift == v.shift
    requires v.keys == Firsts(ns) && v'.keys == Firsts(ns') && NodesInserted(ns, ns', ins, e, nd)
    requires InfoInserted(v.info, v'.info, ins, e, v.inc, x) && v.info[e] == 0
    requires Headroom(v.info, |ns|, v.inc) && forall p :: ins <= p < e ==> v.info[p] != 0 && 0 <= v.info[p]
    ensures CanInsert(hash, v, v', pos, nd.first, x, ins, e)
  {
    hide Home, Probe, HashBits, SlotOk, PathOk, KeyOk;
    assert Inserted(v, v', ins, e, nd.first, x);
  }

  lemma InsertedContents<K(!new), V>(pos: map<K, int>, ns: seq<Node<K, V>>, ns': seq<Node<K, V>>, ins: int, e: int,
                                     nd: Node<K, V>)
    requires (forall k :: k in pos ==> 0 <= pos[k] < |ns| && pos[k] != e) && nd.first !in pos
    requires NodesInserted(ns, ns', ins, e, nd)
    ensures forall k :: k in InsertedPos(pos, ins, e, nd.first) ==> 0 <= InsertedPos(pos, ins, e, nd.first)[k] < |ns'|
    ensures ContentsOf(InsertedPos(pos, ins, e, nd.first), ns') == ContentsOf(pos, ns)[nd.first := nd.second]
  {
    var pos' := InsertedPos(pos, ins, e, nd.first);
    forall k | k in pos ensures ns'[pos'[k]].second == ns[pos[k]].second {}
  }

  // ----- eight info bytes as one little-endian word -----

  ghost predicate Bytes(bs: seq<int>) { forall i :: 0 <= i < |bs| ==> 0 <= bs[i] <= 0xFF }

  // The and with 0x7f in each of n bytes.
  function Mask7f(x: int, n: nat): int
    decreases n
  {
    if n == 0 then 0 else x % 128 + 256 * Mask7f(x / 256, n - 1)
  }

  /** One shift and one mask over the whole word halve every byte by itself. */
  lemma {:induction false} HalveWord(bs: seq<int>)
    requires Bytes(bs)
    ensures var r := Store(Mask7f(Load(bs) / 2, |bs|), |bs|); forall i :: 0 <= i < |bs| ==> r[i] == bs[i] / 2
  {
    if bs != [] {
      var t, b := Load(bs[1..]), bs[0];
      HalveWord(bs[1..]);
      HalveByte(b, t, Mask7f(t / 2, |bs| - 1));
    }
  }

  lemma HalveByte(b: int, t: int, y: int)
    requires 0 <= b <= 0xFF
    ensures var x := (b + 256 * t) / 2; x % 128 == b / 2 && x / 256 == t / 2
    ensures (b / 2 + 256 * y) % 256 == b / 2 && (b / 2 + 256 * y) / 256 == y
  {
    assert (b + 256 * t) / 2 == b / 2 + 128 * t;
  }

  ghost predicate PartOf<K(!new), V>(a: map<K, V>, b: map<K, V>) {
    forall k :: k in a ==> k in b && a[k] == b[k]
  }

  // The part of the map whose nodes stand before slot i.
  ghost function Prefix<K, V>(pos: map<K, int>, ns: seq<Node<K, V>>, i: int): map<K, V>
    requires forall k :: k in pos ==> 0 <= pos[k] < |ns|
  {
    map k | k in pos && pos[k] < i :: ns[pos[k]].second
  }

  lemma PrefixEnds<K(!new), V>(pos: map<K, int>, ns: seq<Node<K, V>>)
    requires forall k :: k in pos ==> 0 <= pos[k] < |ns|
    ensures Prefix(pos, ns, 0) == map[] && Prefix(pos, ns, |ns|) == ContentsOf(pos, ns)
    ensures |ContentsOf(pos, ns)| == |pos|
  {
    assert ContentsOf(pos, ns).Keys == pos.Keys;
    assert |ContentsOf(pos, ns)| == |ContentsOf(pos, ns).Keys|;
  }

  lemma PrefixPart<K(!new), V>(pos: map<K, int>, ns: seq<Node<K, V>>, i: int)
    requires forall k :: k in pos ==> 0 <= pos[k] < |ns|
    ensures PartOf(Prefix(pos, ns, i), ContentsOf(pos, ns))
  {}

  lemma MovedNext<K(!new), V>(hash: K -> nat, v: Layout<K>, pos: map<K, int>, ns: seq<Node<K, V>>, i: int)
    requires Inv(hash, v, pos) && v.keys == Firsts(ns) && 0 <= i < |ns|
    ensures forall k :: k in pos ==> 0 <= pos[k] < |ns|
    ensures v.info[i] == 0 ==> Prefix(pos, ns, i + 1) == Prefix(pos, ns, i)
    ensures v.info[i] != 0 ==> ns[i].first in pos && pos[ns[i].first] == i
    ensures v.info[i] != 0 ==> Prefix(pos, ns, i + 1) == Prefix(pos, ns, i)[ns[i].first := ns[i].second]
  {
    hide Home, Probe, HashBits, PathOk;
    forall k | k in pos ensures Used(v, pos[k]) && v.keys[pos[k]] == k { assert KeyOk(v, pos, k); }
    if Used(v, i) { assert SlotOk(hash, v, pos, i); }
  }

  lemma PrefixKeys<K(!new), V>(pos: map<K, int>, ns: seq<Node<K, V>>, i: int)
    requires forall k :: k in pos ==> 0 <= pos[k] < |ns|
    ensures Prefix(pos, ns, i).Keys == KeysBefore(pos, i)
  {}

  // Slot last holds the last of the keys before slot i, if there are any.
  ghost predicate LastMoved<K(!new)>(pos: map<K, int>, last: int, i: int) {
    && (forall k :: k in pos && pos[k] < i ==> pos[k] <= last)
    && ((forall k :: k in pos ==> pos[k] >= i) || exists k :: k in pos && pos[k] == last < i)
  }

  lemma NoneMoved<K(!new)>(hash: K -> nat, n: pos, pos: map<K, int>)
    requires forall k :: k in pos ==> pos[k] >= 0
    ensures LastMoved(pos, 0, 0) && !Crowded(hash, n, KeysBefore(pos, 0))
  {
    hide Crowded;
    assert KeysBefore(pos, 0) == {};
    FewNotCrowded(hash, n, KeysBefore(pos, 0));
  }

  lemma MovedLast<K(!new), V>(hash: K -> nat, v: Layout<K>, pos: map<K, int>, ns: seq<Node<K, V>>, last: int, i: int)
    requires Inv(hash, v, pos) && v.keys == Firsts(ns) && 0 <= i < |ns| && LastMoved(pos, last, i)
    ensures v.info[i] == 0 ==> LastMoved(pos, last, i + 1)
    ensures v.info[i] != 0 ==> LastMoved(pos, i, i + 1) && KeysBefore(pos, i) <= Earlier(pos)
  {
    hide Home, Probe, HashBits, SlotOk, PathOk, KeyOk;
    MovedNext(hash, v, pos, ns, i);
    if v.info[i] == 0 { NoKeyAt(hash, v, pos, i); }
  }

  lemma NoKeyAt<K(!new)>(hash: K -> nat, v: Layout<K>, pos: map<K, int>, i: int)
    requires Inv(hash, v, pos) && 0 <= i < |v.info| && v.info[i] == 0
    ensures forall k :: k in pos ==> pos[k] != i
  {
    hide Home, Probe, HashBits, SlotOk, PathOk;
    forall k | k in pos ensures pos[k] != i { assert KeyOk(v, pos, k); }
  }

  lemma AllMoved<K(!new)>(pos: map<K, int>, last: int, n: int)
    requires LastMoved(pos, last, n) && forall k :: k in pos ==> 0 <= pos[k] < n
    ensures Earlier(pos) == KeysBefore(pos, last) || Earlier(pos) == {} == KeysBefore(pos, last)
  {
    if k :| k in pos && pos[k] == last { EarlierBeforeLast(pos, k); }
  }

  lemma PrefixRoom<K(!new), V>(pos: map<K, int>, ns: seq<Node<K, V>>, i: int)
    requires (forall k :: k in pos ==> 0 <= pos[k] < |ns|) && 0 <= i < |ns| && ns[i].first in pos
             && pos[ns[i].first] == i
    ensures ns[i].first !in Prefix(pos, ns, i) && |Prefix(pos, ns, i)| < |pos|
  {
    SubsetSize(Prefix(pos, ns, i).Keys, pos.Keys - {ns[i].first});
  }

  ghost predicate NodesRemoved<K, V>(ns: seq<Node<K, V>>, ns': seq<Node<K, V>>, i: int, e: int) {
    && 0 <= i <= e < |ns| == |ns'|
    && (forall p {:trigger ns'[p]} :: 0 <= p < |ns| && p != e ==> ns'[p] == if i <= p < e then ns[p + 1] else ns[p])
  }

  ghost predicate InfoRemoved(was: seq<int>, now: seq<int>, i: int, e: int, inc: int) {
    && 0 <= i <= e < |was| - 1 && |was| == |now|
    && (forall p {:trigger now[p]} :: 0 <= p < |was| ==>
          now[p] == if p == e then 0 else if i <= p < e then (was[p + 1] - inc) % 256 else was[p])
  }

  lemma RemovedLayout<K(!new), V>(hash: K -> nat, v: Layout<K>, v': Layout<K>, pos: map<K, int>,
                                  ns: seq<Node<K, V>>, ns': seq<Node<K, V>>, key: K, i: int, e: int)
    requires Inv(hash, v, pos) && key in pos && pos[key] == i
    requires v'.n == v.n && v'.inc == v.inc && v'.shift == v.shift
    requires v.keys == Firsts(ns) && v'.keys == Firsts(ns') && NodesRemoved(ns, ns', i, e)
    requires InfoRemoved(v.info, v'.info, i, e, v.inc) && v.info[e + 1] < 2 * v.inc
    requires forall p :: i < p <= e ==> v.info[p] >= 2 * v.inc
    ensures CanRemove(hash, v, v', pos, key, i, e)
    ensures Headroom(v.info, |ns|, v.inc) ==> Headroom(v'.info, |ns'|, v'.inc)
  {
    hide Home, Probe, HashBits, PathOk, KeyOk;
    assert v.inc >= 2 && |v.info| == |v.keys| + 8;
    forall p | i < p <= e ensures (v.info[p] - v.inc) % 256 == v.info[p] - v.inc {
      assert Used(v, p) && SlotOk(hash, v, pos, p);
    }
    forall p | 0 <= p < |v.info|
      ensures v'.info[p] == if p == e then 0 else if i <= p < e then v.info[p + 1] - v.inc else v.info[p]
    {
      if i <= p < e { assert (v.info[p + 1] - v.inc) % 256 == v.info[p + 1] - v.inc; }
    }
    assert Removed(v, v', i, e);
  }

  lemma RemovedContents<K(!new), V>(pos: map<K, int>, ns: seq<Node<K, V>>, ns': seq<Node<K, V>>, i: int, e: int, key: K)
    requires (forall k :: k in pos ==> 0 <= pos[k] < |ns|) && key in pos && pos[key] == i
    requires forall k :: k in pos && pos[k] == i ==> k == key
    requires NodesRemoved(ns, ns', i, e)
    ensures forall k :: k in RemovedPos(pos, i, e, key) ==> 0 <= RemovedPos(pos, i, e, key)[k] < |ns'|
    ensures ContentsOf(RemovedPos(pos, i, e, key), ns') == ContentsOf(pos, ns) - {key}
  {
    var pos' := RemovedPos(pos, i, e, key);
    forall k | k in pos' ensures ns'[pos'[k]].second == ns[pos[k]].second {}
  }

  lemma RemovedCount<K(!new)>(pos: map<K, int>, i: int, e: int, key: K)
    requires key in pos
    ensures |RemovedPos(pos, i, e, key)| == |pos| - 1
  {
    assert RemovedPos(pos, i, e, key).Keys == pos.Keys - {key};
  }

  // Zeroed info bytes and the sentinel are an empty table.
  lemma FreshArrays<K(!new), V>(hash: K -> nat, n: nat, info: seq<int>, ns: seq<Node<K, V>>)
    requires n >= INITIAL_SIZE && |ns| == NumWithBuffer(n) && |info| == |ns| + 8
    requires forall i :: 0 <= i < |info| ==> info[i] == if i == |ns| then 1 else 0
    ensures Inv(hash, Layout(n, INITIAL_INC, 0, info, Firsts(ns)), map[]) && Headroom(info, |ns|, INITIAL_INC)
  {
    hide Home, Probe, HashBits, SlotOk, PathOk, KeyOk, CalcMax;
  }

  // How far the bucket count can still grow before increase_size refuses to double.
  function Slack(num: nat, n: nat): nat {
    if n < 3 * num + 200 then 3 * num + 200 - n else 0
  }

  lemma SlackShrinks(num: nat, n: nat)
    requires n > 0
    ensures 2 * num >= CalcMax(n) ==> Slack(num, 2 * n) < Slack(num, n)
  {
    if n > SIZE_MAX / 100 { assert n / 100 * 100 > n - 100; }
  }

  class Table<K(0,!new,==), V(0)> {
    const hash: K -> nat
    var nodes: array<Node<K, V>>
    var info: array<int>
    var num: nat
    var mask: nat
    var maxAllowed: nat
    var inc: nat
    var shift: nat
    ghost var pos: map<K, int>

    ghost function View(): Layout<K>
      reads this, nodes, info
    {
      Layout(mask + 1, inc, shift, info[..], Firsts(nodes[..]))
    }

    // Nothing allocated yet: the info bytes are those of the zero mask.
    ghost predicate Unallocated()
      reads this, nodes, info
    {
      && mask == 0 && num == 0 && maxAllowed == 0 && pos == map[] && inc == INITIAL_INC && shift == 0
      && nodes.Length == 1 && info.Length == 8 && forall p :: 0 <= p < 8 ==> info[p] == 0
    }

    ghost predicate Allocated()
      reads this, nodes, info
    {
      && mask != 0 && Inv(hash, View(), pos)
      && num == |pos| <= CalcMax(mask + 1)
      && (maxAllowed == 0 || (maxAllowed == CalcMax(mask + 1) && Headroom(info[..], nodes.Length, inc)))
    }

    ghost predicate Valid()
      reads this, nodes, info
    {
      Unallocated() || Allocated()
    }

    // The limit is cleared only while some byte has no headroom; erasing may break this.
    ghost predicate Tight()
      reads this, nodes, info
    {
      maxAllowed == 0 && mask != 0 ==> !Headroom(info[..], nodes.Length, inc)
    }

    /** Out of info bits means crowded, and crowded means out of info bits. */
    lemma JamIff()
      requires Allocated() && Tight()
      ensures Crowded(hash, mask + 1, pos.Keys) <==> maxAllowed == 0 && inc <= 2
    {
      hide Home, Probe, HashBits, SlotOk, PathOk, KeyOk, Crowded, CalcMax;
      PositiveLimit();
      CrowdedIff(hash, View(), pos);
    }

    /** The bucket count after an insertion of a new key, or 0 if it is refused. */
    ghost function Grown(): nat
      reads this
    {
      if mask == 0 then INITIAL_SIZE
      else if num < maxAllowed || (num < CalcMax(mask + 1) && inc > 2) then mask + 1
      else Doubled(hash, mask + 1, pos)
    }

    // Growing for a new key starts a doubling that fails half way.
    ghost predicate Loses()
      reads this
    {
      && mask != 0 && num >= maxAllowed && !(num < CalcMax(mask + 1) && inc > 2)
      && 2 * num >= CalcMax(mask + 1) && Crowded(hash, 2 * (mask + 1), Earlier(pos))
    }

    lemma Placed(k: K)
      requires Valid() && k in pos
      ensures Allocated() && 0 <= pos[k] < nodes.Length && nodes[pos[k]].first == k
      ensures info.Length == nodes.Length + 8 && info[pos[k]] != 0
    {
      hide Home, Probe, HashBits, SlotOk, PathOk;
      assert KeyOk(View(), pos, k);
    }

    ghost function Contents(): map<K, V>
      requires Valid()
      reads this, nodes, info
    {
      assert forall k :: k in pos ==> 0 <= pos[k] < nodes.Length by {
        forall k | k in pos ensures 0 <= pos[k] < nodes.Length { Placed(k); }
      }
      ContentsOf(pos, nodes[..])
    }

    lemma ContentsSize()
      requires Valid()
      ensures Contents().Keys == pos.Keys && |Contents()| == |pos| == num
    {
      hide Home, Probe, HashBits, SlotOk, PathOk, KeyOk;
      assert Contents().Keys == pos.Keys;
      assert |Contents()| == |Contents().Keys|;
    }

    constructor (hash: K -> nat)
      ensures Unallocated() && Contents() == map[] && this.hash == hash && fresh(nodes) && fresh(info)
    {
      this.hash := hash;
      nodes := new Node<K, V>[1];
      info := new int[8](_ => 0);
      num, mask, maxAllowed, inc, shift := 0, 0, 0, INITIAL_INC, 0;
      pos := map[];
    }

    method KeyToIdx(key: K) returns (idx: nat, probe: nat)
      requires Valid()
      ensures idx == Home(hash, mask + 1, key) <= mask
      ensures probe == Probe(hash, mask + 1, inc, shift, key, idx)
      ensures idx == hash(key) / 32 % (mask + 1) && probe == inc + hash(key) % 32 / P2(shift)
    {
      hide Home, HashBits, P2;
      KeyParts(hash, mask + 1, shift, key);
      ProbeRange(hash, mask + 1, inc, shift, key, 0);
      probe := inc + HashBits(hash, shift, key);
      idx := Home(hash, mask + 1, key);
    }

    // A probe for key stands at idx and everything before it has been ruled out.
    ghost predicate Searching(key: K, idx: int, probe: int)
      reads this, nodes, info
    {
      && Valid()
      && Home(hash, mask + 1, key) <= idx && probe == Probe(hash, mask + 1, inc, shift, key, idx)
      && (key in pos ==> idx <= pos[key])
    }

    // One slot of a search: a match is the key, and a slot that holds another key is passed.
    lemma SearchStep(key: K, idx: int, probe: int)
      requires Searching(key, idx, probe) && 0 <= idx < info.Length
      ensures probe >= inc >= 2
      ensures probe <= info[idx] ==> Allocated() && idx < nodes.Length
      ensures probe < info[idx] ==> key in pos ==> idx < pos[key]
      ensures probe == info[idx] ==> (nodes[idx].first == key <==> key in pos && pos[key] == idx)
      ensures probe > info[idx] ==> key !in pos
      ensures (key in pos ==> idx + 1 <= pos[key]) ==> Searching(key, idx + 1, probe + inc)
    {
      hide Home, Probe, HashBits, PathOk;
      ProbeRange(hash, mask + 1, inc, shift, key, idx);
      MulMono(0, idx - Home(hash, mask + 1, key), inc);
      ProbeStep(hash, mask + 1, inc, shift, key, idx);
      if mask != 0 {
        var v := View();
        if probe <= info[idx] {
          ProbeInside(hash, v, pos, key, idx);
          assert Used(v, idx) && SlotOk(hash, v, pos, idx);
        } else {
          SearchMayStop(hash, v, pos, key, idx);
        }
        if key in pos { Placed(key); assert Used(v, pos[key]) && SlotOk(hash, v, pos, pos[key]); }
      }
    }

    /** find: the slot of the key, if the map has it. */
    method FindIdx(key: K) returns (found: bool, idx: nat)
      requires Valid()
      ensures found <==> key in Contents()
      ensures found ==> idx < nodes.Length && nodes[idx] == Node(key, Contents()[key])
    {
      hide Home, Probe, HashBits, Inv, CalcMax;
      var probe: nat;
      idx, probe := KeyToIdx(key);
      StartInside(key);
      while true
        invariant Searching(key, idx, probe) && idx < nodes.Length
        invariant Allocated() ==> info.Length == nodes.Length + 8
        decreases nodes.Length - idx
      {
        SearchStep(key, idx, probe);
        if probe == info[idx] && nodes[idx].first == key { return true, idx; }
        idx, probe := idx + 1, probe + inc;
        SearchStep(key, idx, probe);
        if probe == info[idx] && nodes[idx].first == key { return true, idx; }
        idx, probe := idx + 1, probe + inc;
        SearchStep(key, idx, probe);
        if !(probe <= info[idx]) { break; }
      }
      return false, idx;
    }

    lemma StartInside(key: K)
      requires Valid()
      ensures var h := Home(hash, mask + 1, key); Searching(key, h, Probe(hash, mask + 1, inc, shift, key, h))
      ensures Home(hash, mask + 1, key) < nodes.Length && info.Length >= nodes.Length + 7
      ensures Allocated() ==> info.Length == nodes.Length + 8
    {
      hide Home, Probe, HashBits, PathOk;
      ProbeRange(hash, mask + 1, inc, shift, key, 0);
      if key in pos {
        Placed(key);
        assert Used(View(), pos[key]) && SlotOk(hash, View(), pos, pos[key]);
      }
    }

    // Behind a slot whose info equals the probe the info is at most the next probe.
    lemma NoRise(key: K, idx: int, probe: int)
      requires Searching(key, idx, probe) && 0 <= idx < info.Length && probe == info[idx]
      ensures idx + 1 < info.Length && info[idx + 1] <= probe + inc
    {
      hide Home, Probe, HashBits, SlotOk;
      SearchStep(key, idx, probe);
      if Used(View(), idx + 1) { assert PathOk(View(), idx + 1); }
    }

    ghost predicate BehindPath(key: K, idx: int, probe: int)
      requires 0 <= idx < info.Length
      reads this, info
    {
      idx == Home(hash, mask + 1, key) || (idx > 0 && info[idx - 1] >= probe - inc)
    }

    /** nextWhileLess and the match loop: the key's slot, or the slot where it belongs. */
    method Locate(key: K) returns (found: bool, idx: nat, probe: nat)
      requires Valid()
      ensures found <==> key in Contents()
      ensures found ==> idx < nodes.Length && nodes[idx] == Node(key, Contents()[key])
      ensures !found ==> idx < info.Length && InsertionPoint(hash, View(), key, idx, probe)
    {
      hide Home, Probe, HashBits, Inv, CalcMax;
      idx, probe := KeyToIdx(key);
      StartInside(key);
      while probe < info[idx]
        invariant Searching(key, idx, probe) && idx < info.Length && BehindPath(key, idx, probe)
        invariant Allocated() ==> info.Length == nodes.Length + 8
        decreases info.Length - idx
      {
        SearchStep(key, idx, probe);
        idx, probe := idx + 1, probe + inc;
      }
      while probe == info[idx]
        invariant Searching(key, idx, probe) && idx < info.Length && BehindPath(key, idx, probe)
        invariant info[idx] <= probe
        decreases info.Length - idx
      {
        SearchStep(key, idx, probe);
        if nodes[idx].first == key { return true, idx, probe; }
        NoRise(key, idx, probe);
        idx, probe := idx + 1, probe + inc;
      }
      SearchStep(key, idx, probe);
      found := false;
    }

    // From the insertion point on, the first empty slot.
    method FindEmpty(ghost key: K, ghost x: int, ins: nat) returns (idx: nat)
      requires Inv(hash, View(), pos) && |pos| < CalcMax(mask + 1)
      requires InsertionPoint(hash, View(), key, ins, x)
      ensures ins <= idx < nodes.Length && idx < info.Length && info[idx] == 0
      ensures forall p :: ins <= p < idx ==> info[p] != 0
    {
      hide Home, Probe, HashBits, SlotOk, PathOk, KeyOk, CalcMax;
      ghost var v := View();
      idx := ins;
      forall p | Home(hash, v.n, key) <= p < ins && ins <= |v.keys| ensures Used(v, p) {
        PassedUsed(hash, v, pos, key, ins, x, p);
      }
      InsideInsertion(key, x, ins);
      RoomFor(hash, v, pos, key, idx);
      while 0 != info[idx]
        invariant ins <= idx < nodes.Length
        invariant forall p :: Home(hash, v.n, key) <= p < idx ==> Used(v, p)
        decreases nodes.Length - idx
      {
        idx := idx + 1;
        assert Used(v, idx - 1);
        RoomFor(hash, v, pos, key, idx);
      }
      forall p | ins <= p < idx ensures info[p] != 0 { assert Used(v, p); }
    }

    lemma InsideInsertion(key: K, x: int, ins: nat)
      requires Inv(hash, View(), pos) && InsertionPoint(hash, View(), key, ins, x)
      ensures ins <= nodes.Length < info.Length
    {
      hide Home, Probe, HashBits, SlotOk, PathOk, KeyOk, CalcMax;
      ProbeRange(hash, mask + 1, inc, shift, key, ins);
      CalcMaxBounds(mask + 1);
    }

    /** shiftUp: slots ins..start-1 move up by one, each info byte one step further from home. */
    method ShiftUp(start: nat, ins: nat)
      requires ins < start < nodes.Length && start < info.Length
      modifies nodes, info, this`maxAllowed
      ensures forall p {:trigger nodes[p]} :: 0 <= p < nodes.Length && p != ins ==>
                nodes[p] == old(if ins < p <= start then nodes[p - 1] else nodes[p])
      ensures forall p {:trigger info[p]} :: 0 <= p < info.Length ==>
                info[p] == old(if ins < p <= start then (info[p - 1] + inc) % 256 else info[p])
      ensures maxAllowed == old(maxAllowed) || maxAllowed == 0
      ensures (forall p :: ins < p <= start ==> info[p] + inc <= 0xFF) ==> maxAllowed == old(maxAllowed)
      ensures forall p :: ins < p <= start && info[p] + inc > 0xFF ==> maxAllowed == 0
    {
      var idx := start;
      nodes[idx] := nodes[idx - 1];
      idx := idx - 1;
      while idx != ins
        modifies nodes
        invariant ins <= idx < start
        invariant forall p {:trigger nodes[p]} :: 0 <= p < nodes.Length ==>
                    nodes[p] == old(if idx < p <= start then nodes[p - 1] else nodes[p])
      {
        nodes[idx] := nodes[idx - 1];
        idx := idx - 1;
      }
      ShiftInfo(start, ins);
    }

    // the second loop of shiftUp
    method ShiftInfo(start: nat, ins: nat)
      requires ins < start < info.Length
      modifies info, this`maxAllowed
      ensures forall p {:trigger info[p]} :: 0 <= p < info.Length ==>
                info[p] == old(if ins < p <= start then (info[p - 1] + inc) % 256 else info[p])
      ensures maxAllowed == old(maxAllowed) || maxAllowed == 0
      ensures (forall p :: ins < p <= start ==> info[p] + inc <= 0xFF) ==> maxAllowed == old(maxAllowed)
      ensures forall p :: ins < p <= start && info[p] + inc > 0xFF ==> maxAllowed == 0
    {
      var idx := start;
      ghost var spill: nat := 0;
      while idx != ins
        invariant ins <= idx <= start
        invariant forall p {:trigger info[p]} :: 0 <= p < info.Length ==>
                    info[p] == old(if idx < p <= start then (info[p - 1] + inc) % 256 else info[p])
        invariant if spill == 0
                  then maxAllowed == old(maxAllowed) && forall p :: idx < p <= start ==> info[p] + inc <= 0xFF
                  else maxAllowed == 0 && idx < spill <= start && info[spill] + inc > 0xFF
      {
        info[idx] := (info[idx - 1] + inc) % 256;
        if info[idx] + inc > 0xFF { maxAllowed := 0; spill := idx; }
        idx := idx - 1;
      }
    }

    // Make room at ins by moving ins..e-1 up, and put the node and its info there.
    method Place(nd: Node<K, V>, ins: nat, e: nat, x: nat) returns (ghost full: int)
      requires ins <= e < nodes.Length && e < info.Length
      modifies nodes, info, this`maxAllowed
      ensures NodesInserted(old(nodes[..]), nodes[..], ins, e, nd)
      ensures InfoInserted(old(info[..]), info[..], ins, e, inc, x) && nodes[ins] == nd
      ensures maxAllowed == old(maxAllowed) || maxAllowed == 0
      ensures old(maxAllowed) != 0 && maxAllowed == 0 ==> ins < full <= e && info[full] + inc > 0xFF
      ensures maxAllowed != 0 ==> forall p :: ins < p <= e ==> info[p] + inc <= 0xFF
    {
      hide NodesInserted, InfoInserted;
      full := ins;
      if e != ins {
        ShiftUp(e, ins);
        if old(maxAllowed) != 0 && maxAllowed == 0 { full :| ins < full <= e && info[full] + inc > 0xFF; }
      }
      ghost var ns, bs := nodes[..], info[..];
      NodesSet(old(nodes[..]), ns, ins, e, nd);
      InfoSet(old(info[..]), bs, ins, e, inc, x);
      nodes[ins] := nd;
      info[ins] := x % 256;
      assert nodes[..] == ns[ins := nd] && info[..] == bs[ins := x % 256];
    }

    // The same, and what it does to the room left in the info bytes.
    method Put(nd: Node<K, V>, ins: nat, e: nat, x: nat)
      requires ins <= e < nodes.Length && e < info.Length
      modifies nodes, info, this`maxAllowed
      ensures NodesInserted(old(nodes[..]), nodes[..], ins, e, nd)
      ensures InfoInserted(old(info[..]), info[..], ins, e, inc, x) && nodes[ins] == nd
      ensures maxAllowed == old(maxAllowed) || maxAllowed == 0
      ensures maxAllowed != 0 && 0 <= x && x + inc <= 0xFF && Headroom(old(info[..]), nodes.Length, inc) ==>
                Headroom(info[..], nodes.Length, inc)
      ensures old(maxAllowed) != 0 && maxAllowed == 0 ==> !Headroom(info[..], nodes.Length, inc)
    {
      hide Headroom, NodesInserted, InfoInserted;
      ghost var full := Place(nd, ins, e, x);
      if old(maxAllowed) != 0 && maxAllowed == 0 { FullByte(info[..], nodes.Length, inc, full); }
      if maxAllowed != 0 && 0 <= x && x + inc <= 0xFF && Headroom(old(info[..]), nodes.Length, inc) {
        InsertedHeadroom(old(info[..]), info[..], nodes.Length, ins, e, inc, x);
      }
    }

    /** The end of every insertion: find an empty slot, make room, put the node there. */
    method InsertAt(key: K, val: V, ins: nat, x: nat)
      requires Allocated() && key !in pos && num < CalcMax(mask + 1) && maxAllowed != 0
      requires InsertionPoint(hash, View(), key, ins, x)
      modifies this, nodes, info
      ensures Allocated() && nodes == old(nodes) && info == old(info) && mask == old(mask) && inc == old(inc)
      ensures Contents() == old(Contents())[key := val] && num == old(num) + 1
      ensures ins < nodes.Length && nodes[ins] == Node(key, val) && Tight()
    {
      hide Home, Probe, HashBits, SlotOk, PathOk, KeyOk, CalcMax, Inv, InsertionPoint, Firsts, InsertedPos,
           NodesInserted, InfoInserted, Headroom, NumWithBuffer, ContentsOf, Unallocated;
      ghost var v, ns := View(), nodes[..];
      InsertedFits(key, x, ins);
      InfoBytes();
      if x + inc > 0xFF { maxAllowed := 0; }
      assert View() == v;
      var idx := FindEmpty(key, x, ins);
      Put(Node(key, val), ins, idx, x);
      num := num + 1;
      PutKeeps(v, ns, Node(key, val), ins, idx, x);
      ghost var v' := View();
      pos := InsertedPos(pos, ins, idx, key);
      assert View() == v';
    }

    lemma PutKeeps(v: Layout<K>, ns: seq<Node<K, V>>, nd: Node<K, V>, ins: int, e: int, x: int)
      requires Inv(hash, v, pos) && nd.first !in pos && InsertionPoint(hash, v, nd.first, ins, x) && 0 <= x <= 0xFF
      requires mask + 1 == v.n && inc == v.inc && shift == v.shift
      requires v.keys == Firsts(ns) && NodesInserted(ns, nodes[..], ins, e, nd)
      requires InfoInserted(v.info, info[..], ins, e, inc, x) && v.info[e] == 0
      requires Headroom(v.info, |ns|, inc) && forall p :: ins <= p < e ==> v.info[p] != 0 && 0 <= v.info[p]
      requires forall k :: k in pos ==> 0 <= pos[k] < |ns| && pos[k] != e
      ensures var pos' := InsertedPos(pos, ins, e, nd.first);
        && Inv(hash, View(), pos') && |pos'| == |pos| + 1
        && (forall k :: k in pos' ==> 0 <= pos'[k] < nodes.Length)
        && ContentsOf(pos', nodes[..]) == ContentsOf(pos, ns)[nd.first := nd.second]
      ensures x + inc > 0xFF ==> !Headroom(info[..], nodes.Length, inc)
    {
      hide Home, Probe, HashBits, SlotOk, PathOk, KeyOk, CalcMax, Inv, InsertionPoint, Firsts, InsertedPos,
           InfoInserted, Headroom, NumWithBuffer;
      if x + inc > 0xFF { InsertedFull(v.info, info[..], nodes.Length, ins, e, inc, x); }
      InsertedLayout(hash, v, View(), pos, ns, nodes[..], nd, x, ins, e);
      InsertKeeps(hash, v, View(), pos, nd.first, x, ins, e);
      InsertedContents(pos, ns, nodes[..], ins, e, nd);
      InsertedSize(pos, ins, e, nd.first);
    }

    lemma InfoBytes()
      requires Allocated()
      ensures info.Length == nodes.Length + 8 && nodes.Length == NumWithBuffer(mask + 1)
      ensures forall p :: 0 <= p < info.Length ==> 0 <= info[p] <= 0xFF
      ensures forall k :: k in pos ==> 0 <= pos[k] < nodes.Length && info[pos[k]] != 0
    {
      hide Home, Probe, HashBits, SlotOk, PathOk;
      forall p | 0 <= p < info.Length ensures 0 <= info[p] <= 0xFF {
        if Used(View(), p) { UsedPositive(hash, View(), pos, p); }
      }
      forall k | k in pos ensures 0 <= pos[k] < nodes.Length && info[pos[k]] != 0 { Placed(k); }
    }

    lemma InsertedFits(key: K, x: int, ins: nat)
      requires Allocated() && maxAllowed != 0
      requires InsertionPoint(hash, View(), key, ins, x)
      ensures 0 <= x <= 0xFF
    {
      hide Home, Probe, HashBits, SlotOk, PathOk, KeyOk, CalcMax;
      InsideInsertion(key, x, ins);
      ProbeRange(hash, mask + 1, inc, shift, key, ins);
      MulMono(0, ins - Home(hash, mask + 1, key), inc);
    }

    // Halve bytes i..i+7 through one word.
    method HalveEight(i: nat)
      requires i + 8 <= info.Length && Bytes(info[i..i + 8])
      modifies info
      ensures forall p {:trigger info[p]} :: 0 <= p < info.Length ==>
                info[p] == if i <= p < i + 8 then old(info[p]) / 2 else old(info[p])
    {
      ghost var bs := info[i..i + 8];
      var val := Load(info[i..i + 8]);
      val := Mask7f(val / 2, 8);
      var out := Store(val, 8);
      HalveWord(bs);
      forall j | 0 <= j < 8 { info[i + j] := out[j]; }
      forall p | i <= p < i + 8 ensures info[p] == old(info[p]) / 2 {
        assert info[i + (p - i)] == out[p - i] == bs[p - i] / 2;
      }
    }

    method HalveInfo(n: nat)
      requires info.Length == n + 8 && Bytes(info[..]) && forall p :: n < p < info.Length ==> info[p] == 0
      modifies info
      ensures forall p {:trigger info[p]} :: 0 <= p < info.Length ==> info[p] == if p == n then 1 else old(info[p]) / 2
    {
      var i: nat := 0;
      while i < n
        invariant i <= n + 7
        invariant forall p {:trigger info[p]} :: 0 <= p < info.Length ==>
                  info[p] == if p < i then old(info[p]) / 2 else old(info[p])
      {
        HalveEight(i);
        i := i + 8;
      }
      // the sentinel may have been shifted out
      info[n] := 1;
    }

    /** try_increase_info: one hash bit less in every info byte, and no lookup changes. */
    method TryIncreaseInfo() returns (ok: bool)
      requires Allocated()
      modifies this`inc, this`shift, this`maxAllowed, info
      ensures Allocated() && Contents() == old(Contents())
      ensures ok == (old(inc) > 2)
      ensures if ok then 2 * inc == old(inc) && maxAllowed == CalcMax(mask + 1)
              else inc == old(inc) && maxAllowed == old(maxAllowed)
    {
      hide Home, Probe, HashBits, SlotOk, PathOk, KeyOk, CalcMax, Firsts;
      if inc <= 2 { return false; }
      ghost var v := View();
      InfoBytes();
      assert inc % 2 == 0;
      inc := inc / 2;
      shift := shift + 1;
      HalveInfo(NumWithBuffer(mask + 1));
      HalveKeeps(hash, v, View(), pos);
      maxAllowed := CalcMax(mask + 1);
      return true;
    }

    // init_data
    method InitData(n: nat)
      requires n >= INITIAL_SIZE
      modifies this
      ensures Allocated() && Contents() == map[] && fresh(nodes) && fresh(info)
      ensures num == 0 && mask == n - 1 && maxAllowed == CalcMax(n) && inc == INITIAL_INC && Tight()
      ensures nodes.Length == n + (if maxAllowed <= 255 then maxAllowed else 255) && info.Length == nodes.Length + 8
      ensures info[nodes.Length] == 1 && forall p :: 0 <= p < info.Length && p != nodes.Length ==> info[p] == 0
    {
      hide Inv, CalcMax, Headroom, Firsts;
      CalcMaxBounds(n);
      num, mask, maxAllowed := 0, n - 1, CalcMax(n);
      var size := NumWithBuffer(n);
      nodes := new Node<K, V>[size];
      info := new int[size + 8](i => if i == size then 1 else 0);
      inc, shift := INITIAL_INC, 0;
      pos := map[];
      FreshArrays(hash, n, info[..], nodes[..]);
    }

    // Where a key known to be absent belongs.
    method SkipForward(key: K) returns (idx: nat, probe: nat)
      requires Allocated() && key !in pos
      ensures idx < info.Length && InsertionPoint(hash, View(), key, idx, probe)
    {
      hide Home, Probe, HashBits, Inv, CalcMax;
      idx, probe := KeyToIdx(key);
      StartInside(key);
      while probe <= info[idx]
        invariant Searching(key, idx, probe) && idx < info.Length && BehindPath(key, idx, probe)
        decreases info.Length - idx
      {
        SearchStep(key, idx, probe);
        idx, probe := idx + 1, probe + inc;
      }
    }

    /** insert_move: a node known to be new; it can only fail by running out of info bits. */
    method InsertMove(nd: Node<K, V>) returns (ok: bool)
      requires Allocated() && nd.first !in pos && num < CalcMax(mask + 1)
      modifies this, nodes, info
      ensures Allocated() && nodes == old(nodes) && info == old(info) && mask == old(mask)
      ensures ok <==> old(maxAllowed) != 0 || old(inc) > 2
      ensures ok ==> Contents() == old(Contents())[nd.first := nd.second] && num == old(num) + 1 && Tight()
      ensures !ok ==> Contents() == old(Contents()) && num == old(num) && inc <= 2 && maxAllowed == 0
    {
      hide Home, Probe, HashBits, Inv, CalcMax;
      if maxAllowed == 0 {
        var more := TryIncreaseInfo();
        if !more { return false; }
        PositiveLimit();
      }
      var idx, probe := SkipForward(nd.first);
      InsertAt(nd.first, nd.second, idx, probe);
      return true;
    }

    lemma PositiveLimit()
      requires Allocated()
      ensures CalcMax(mask + 1) > 0
    {
      hide Home, Probe, HashBits, SlotOk, PathOk, KeyOk;
    }

    // Move one old node, if its slot is used.
    method MoveOne(nd: Node<K, V>, byte: int, ghost v: Layout<K>, ghost was: map<K, int>, ghost ns: seq<Node<K, V>>,
                   i: nat)
        returns (ok: bool)
      requires Allocated() && Inv(hash, v, was) && v.keys == Firsts(ns) && i < |ns| && |was| <= CalcMax(mask + 1)
      requires nd == ns[i] && byte == v.info[i]
      requires (forall k :: k in was ==> 0 <= was[k] < |ns|) && Contents() == Prefix(was, ns, i) && Tight()
      modifies this, nodes, info
      ensures Allocated() && nodes == old(nodes) && info == old(info) && mask == old(mask)
      ensures Contents() == Prefix(was, ns, if ok then i + 1 else i) && (ok ==> Tight())
      ensures ok <==> byte == 0 || !Crowded(hash, mask + 1, KeysBefore(was, i))
      ensures !ok ==> num < |was|
    {
      hide Home, Probe, HashBits, SlotOk, PathOk, KeyOk, CalcMax, Inv, Prefix, NumWithBuffer, Crowded, Headroom;
      MovedNext(hash, v, was, ns, i);
      ContentsSize();
      PrefixKeys(was, ns, i);
      if byte == 0 { return true; }
      JamIff();
      PrefixRoom(was, ns, i);
      assert nd.first !in Contents().Keys;
      ok := InsertMove(nd);
    }

    /** rehashPowerOfTwo: every node moved into fresh arrays of another size; the map stays,
        unless a move fails, which leaves part of it. */
    method RehashPowerOfTwo(buckets: nat) returns (ok: bool)
      requires Allocated() && buckets >= INITIAL_SIZE && num <= CalcMax(buckets)
      modifies this
      ensures Allocated() && mask == buckets - 1 && fresh(nodes) && fresh(info)
      ensures ok <==> !Crowded(hash, buckets, Earlier(old(pos)))
      ensures ok ==> Contents() == old(Contents()) && num == old(num) && Tight()
      ensures !ok ==> PartOf(Contents(), old(Contents())) && num < old(num) && Crowded(hash, buckets, Contents().Keys)
    {
      hide Home, Probe, HashBits, SlotOk, PathOk, KeyOk, CalcMax, Inv, Prefix, ContentsOf, NumWithBuffer, Firsts,
           Headroom, PartOf, Crowded, Earlier;
      var oldNodes, oldInfo := nodes, info;
      ghost var v, ns, was := View(), nodes[..], pos;
      InfoBytes();
      ContentsSize();
      InitData(buckets);
      PrefixEnds(was, ns);
      ok := MoveAll(oldNodes, oldInfo, v, was);
      ContentsSize();
    }

    // the loop of rehashPowerOfTwo over the old arrays
    method MoveAll(oldNodes: array<Node<K, V>>, oldInfo: array<int>, ghost v: Layout<K>, ghost was: map<K, int>)
        returns (ok: bool)
      requires Allocated() && oldNodes != nodes && oldInfo != info && |was| <= CalcMax(mask + 1)
      requires Inv(hash, v, was) && v.keys == Firsts(oldNodes[..]) && v.info == oldInfo[..]
      requires oldInfo.Length == oldNodes.Length + 8
      requires (forall k :: k in was ==> 0 <= was[k] < oldNodes.Length) && Contents() == map[] && Tight()
      modifies this, nodes, info
      ensures Allocated() && nodes == old(nodes) && info == old(info) && mask == old(mask)
      ensures ok <==> !Crowded(hash, mask + 1, Earlier(was))
      ensures ok ==> Contents() == ContentsOf(was, oldNodes[..]) && Tight()
      ensures !ok ==> PartOf(Contents(), ContentsOf(was, oldNodes[..])) && Crowded(hash, mask + 1, Contents().Keys)
      ensures !ok ==> num < |was|
    {
      hide Home, Probe, HashBits, SlotOk, PathOk, KeyOk, CalcMax, Inv, Prefix, ContentsOf, NumWithBuffer, Firsts,
           Headroom, PartOf, Crowded, Earlier, KeysBefore, LastMoved;
      ghost var ns, last := oldNodes[..], 0;
      PrefixEnds(was, ns);
      NoneMoved(hash, mask + 1, was);
      for i := 0 to oldNodes.Length
        invariant Allocated() && nodes == old(nodes) && info == old(info) && mask == old(mask)
        invariant Contents() == Prefix(was, ns, i) && Tight()
        invariant 0 <= last <= i && LastMoved(was, last, i) && !Crowded(hash, mask + 1, KeysBefore(was, last))
      {
        ok := MoveOne(oldNodes[i], oldInfo[i], v, was, ns, i);
        MovedLast(hash, v, was, ns, last, i);
        if !ok {
          PrefixPart(was, ns, i);
          PrefixKeys(was, ns, i);
          CrowdedMono(hash, mask + 1, KeysBefore(was, i), Earlier(was));
          return;
        }
        if oldInfo[i] != 0 { last := i; }
      }
      AllMoved(was, last, oldNodes.Length);
      return true;
    }

    /** increase_size: allocate, narrow the info bytes, or double; the map stays. Two refusals:
        too many collisions for the load, and a failed move while doubling. */
    method IncreaseSize() returns (ok: bool)
      requires Valid() && num >= maxAllowed
      modifies this, info
      ensures Valid() && (nodes == old(nodes) || fresh(nodes)) && (info == old(info) || fresh(info))
      ensures ok <==> old(mask == 0 || (num < CalcMax(mask + 1) && inc > 2)
                          || (2 * num >= CalcMax(mask + 1) && !Crowded(hash, 2 * (mask + 1), Earlier(pos))))
      ensures ok ==> Contents() == old(Contents()) && num == old(num) && Allocated()
      ensures ok ==> mask + 1 == old(if mask == 0 then INITIAL_SIZE
                                     else if num < CalcMax(mask + 1) && inc > 2 then mask + 1 else 2 * (mask + 1))
      ensures ok ==> if mask == old(mask) then 2 * inc == old(inc) && maxAllowed == CalcMax(mask + 1) else Tight()
      ensures old(mask) == 0 ==> maxAllowed == CalcMax(INITIAL_SIZE)
      ensures !ok ==> PartOf(Contents(), old(Contents()))
      ensures !ok ==> if old(2 * num < CalcMax(mask + 1)) then Contents() == old(Contents()) else num < old(num)
    {
      hide Home, Probe, HashBits, SlotOk, PathOk, KeyOk, Inv, ContentsOf, NumWithBuffer, CalcMax, Crowded, Earlier,
           Headroom;
      if mask == 0 {
        ContentsSize();
        assert Contents() == map[];
        InitData(INITIAL_SIZE);
        return true;
      }
      LimitGrows();
      var limit := CalcMax(mask + 1);
      if num < limit {
        ok := TryIncreaseInfo();
        if ok { return; }
      }
      if num * 2 < CalcMax(mask + 1) { return false; }
      ok := RehashPowerOfTwo((mask + 1) * 2);
    }

    lemma LimitGrows()
      requires Allocated()
      ensures mask + 1 >= INITIAL_SIZE && CalcMax(mask + 1) <= CalcMax((mask + 1) * 2)
      ensures inc >= 2
    {
      hide Home, Probe, HashBits, SlotOk, PathOk, KeyOk, CalcMax;
      CalcMaxBounds(mask + 1);
    }

    lemma RoomAlready()
      requires Valid() && num < maxAllowed
      ensures Allocated() && maxAllowed != 0 && num < CalcMax(mask + 1) && Grown() == mask + 1
    {
      hide Home, Probe, HashBits, SlotOk, PathOk, KeyOk, Inv, Doubled;
    }

    // One growth leaves the outcome of the insertion as it was.
    method GrowOnce() returns (ok: bool)
      requires Valid() && num >= maxAllowed
      modifies this, info
      ensures Valid() && (nodes == old(nodes) || fresh(nodes)) && (info == old(info) || fresh(info))
      ensures if ok then Grown() == old(Grown()) else old(Grown()) == 0
      ensures ok ==> Contents() == old(Contents()) && num == old(num)
      ensures ok ==> mask != 0 && (old(mask) == 0 || (mask == old(mask) && inc < old(inc))
                                   || (mask == 2 * old(mask) + 1 && 2 * num >= CalcMax(old(mask) + 1)))
      ensures !ok ==> PartOf(Contents(), old(Contents())) && (old(Loses()) ==> num < old(num))
      ensures ok ==> !old(Loses())
    {
      hide Home, Probe, HashBits, SlotOk, PathOk, KeyOk, Inv, ContentsOf, NumWithBuffer, CalcMax, Crowded, Earlier,
           Headroom, Doubled, PartOf;
      ghost var n, was := mask + 1, pos;
      ContentsSize();
      if mask != 0 { LimitGrows(); RefusedOnce(); }
      assert CalcMax(INITIAL_SIZE) == 6 by { FirstLimit(); }
      ok := IncreaseSize();
      if ok {
        ContentsSize();
        if mask + 1 == 2 * n { AfterDoubling(n, was); }
      }
    }

    lemma FirstLimit()
      ensures CalcMax(INITIAL_SIZE) == 6
    {}

    lemma RefusedOnce()
      requires Allocated() && num >= maxAllowed
      ensures (num < CalcMax(mask + 1) && inc > 2) || Grown() == 0
              || (2 * num >= CalcMax(mask + 1) && !Crowded(hash, 2 * (mask + 1), Earlier(pos)))
    {
      hide Home, Probe, HashBits, SlotOk, PathOk, KeyOk, Inv, CalcMax, Crowded, Earlier, Headroom;
      if Crowded(hash, 2 * (mask + 1), Earlier(pos)) { EarlierCrowded(hash, 2 * (mask + 1), pos); }
    }

    lemma AfterDoubling(n: nat, was: map<K, int>)
      requires Allocated() && Tight() && n >= INITIAL_SIZE && mask + 1 == 2 * n
      requires pos.Keys == was.Keys && |was| == num <= CalcMax(n) <= 2 * |was| && !Crowded(hash, 2 * n, Earlier(was))
      ensures Grown() == Doubled(hash, n, was)
    {
      hide Home, Probe, HashBits, SlotOk, PathOk, KeyOk, Inv, CalcMax, Crowded, Earlier, Headroom;
      JamIff();
      CalcMaxBounds(n);
      DoubledAgain(hash, n, was, pos);
    }

    /** doInsert: adds the pair unless the key is there. */
    method Insert(key: K, val: V) returns (ok: bool, inserted: bool, idx: nat)
      requires Valid()
      modifies this, nodes, info
      ensures Valid() && (nodes == old(nodes) || fresh(nodes)) && (info == old(info) || fresh(info))
      ensures ok <==> key in old(Contents()) || old(Grown()) != 0
      ensures ok ==> inserted == (key !in old(Contents()))
      ensures ok ==> mask + 1 == if inserted then old(Grown()) else old(mask) + 1
      ensures inserted ==> Tight()
      ensures ok ==> Contents() == if inserted then old(Contents())[key := val] else old(Contents())
      ensures ok ==> idx < nodes.Length && nodes[idx] == Node(key, Contents()[key])
      ensures !ok ==> key !in old(Contents()) && PartOf(Contents(), old(Contents()))
      ensures !ok && old(Loses()) ==> |Contents()| < |old(Contents())|
    {
      hide Home, Probe, HashBits, SlotOk, PathOk, KeyOk, Inv, ContentsOf, NumWithBuffer, CalcMax, InsertionPoint,
           Slack, Headroom, Firsts, PartOf, Grown, Loses, Allocated, Unallocated, Tight;
      ok, inserted := true, false;
      while true
        invariant Valid() && (nodes == old(nodes) || fresh(nodes)) && (info == old(info) || fresh(info))
        invariant Contents() == old(Contents()) && ok && !inserted
        invariant if key in Contents() then mask == old(mask) else Grown() == old(Grown())
        invariant old(Loses()) ==> Loses()
        decreases mask == 0, Slack(num, mask + 1), inc
      {
        var found, probe;
        found, idx, probe := Locate(key);
        if found { return; }
        if num >= maxAllowed {
          SlackShrinks(num, mask + 1);
          ContentsSize();
          ok := GrowOnce();
          if !ok { ContentsSize(); return; }
          continue;
        }
        ContentsSize();
        RoomAlready();
        InsertAt(key, val, idx, probe);
        inserted := true;
        return;
      }
    }

    /** shiftDown: the run behind a removed slot moves down by one, up to slot e. */
    method ShiftDown(i: nat) returns (ghost e: nat)
      requires i < nodes.Length && info.Length == nodes.Length + 8 && inc >= 2 && info[nodes.Length] == 1
      modifies nodes, info
      ensures i <= e < nodes.Length && old(info[e + 1]) < 2 * inc && forall p :: i < p <= e ==> old(info[p]) >= 2 * inc
      ensures NodesRemoved(old(nodes[..]), nodes[..], i, e)
      ensures InfoRemoved(old(info[..]), info[..], i, e, inc)
    {
      var idx := i;
      while info[idx + 1] >= 2 * inc
        invariant i <= idx < nodes.Length
        invariant forall p :: i < p <= idx ==> old(info[p]) >= 2 * inc
        invariant forall p {:trigger nodes[p]} :: 0 <= p < nodes.Length ==>
                    nodes[p] == old(if i <= p < idx then nodes[p + 1] else nodes[p])
        invariant forall p {:trigger info[p]} :: 0 <= p < info.Length ==>
                    info[p] == old(if i <= p < idx then (info[p + 1] - inc) % 256 else info[p])
        decreases nodes.Length - idx
      {
        info[idx] := (info[idx + 1] - inc) % 256;
        nodes[idx] := nodes[idx + 1];
        idx := idx + 1;
      }
      info[idx] := 0;
      e := idx;
    }

    /** erase: the key is gone and nothing else changes. */
    method Erase(key: K) returns (erased: bool)
      requires Valid()
      modifies this, nodes, info
      ensures Valid() && nodes == old(nodes) && info == old(info)
      ensures erased == (key in old(Contents()))
      ensures Contents() == old(Contents()) - {key}
    {
      hide Home, Probe, HashBits, SlotOk, PathOk, KeyOk, Inv, ContentsOf, NumWithBuffer, CalcMax, NodesRemoved,
           InfoRemoved, Headroom, RemovedPos, Firsts;
      var idx;
      erased, idx := FindToErase(key);
      ContentsSize();
      if !erased { return; }
      ghost var v, ns := View(), nodes[..];
      OneKeyPerSlot(key);
      InfoBytes();
      SentinelThere();
      ghost var e := ShiftDown(idx);
      num := num - 1;
      RemovedLayout(hash, v, View(), pos, ns, nodes[..], key, idx, e);
      RemoveKeeps(hash, v, View(), pos, key, idx, e);
      RemovedContents(pos, ns, nodes[..], idx, e, key);
      RemovedCount(pos, idx, e, key);
      ghost var v' := View();
      pos := RemovedPos(pos, idx, e, key);
      assert View() == v';
      assert Allocated();
    }

    lemma OneKeyPerSlot(key: K)
      requires Valid() && key in pos
      ensures Allocated() && 0 <= pos[key] < nodes.Length
      ensures forall k :: k in pos && pos[k] == pos[key] ==> k == key
    {
      Placed(key);
      forall k | k in pos && pos[k] == pos[key] ensures k == key { Placed(k); }
    }

    lemma SentinelThere()
      requires Allocated()
      ensures info.Length == nodes.Length + 8 && info[nodes.Length] == 1 && inc >= 2
    {
      hide Home, Probe, HashBits, SlotOk, PathOk, KeyOk, NumWithBuffer;
    }

    method FindToErase(key: K) returns (found: bool, idx: nat)
      requires Valid()
      ensures found <==> key in pos
      ensures found ==> idx == pos[key]
    {
      hide Home, Probe, HashBits, Inv, CalcMax;
      var probe: nat;
      idx, probe := KeyToIdx(key);
      StartInside(key);
      while true
        invariant Searching(key, idx, probe) && idx < nodes.Length
        invariant Allocated() ==> info.Length == nodes.Length + 8
        decreases nodes.Length - idx
      {
        SearchStep(key, idx, probe);
        if probe == info[idx] && nodes[idx].first == key { return true, idx; }
        idx, probe := idx + 1, probe + inc;
        SearchStep(key, idx, probe);
        if !(probe <= info[idx]) { break; }
      }
      return false, idx;
    }
  }
}
