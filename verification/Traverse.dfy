// The traversal of the live cache (src/LiveCache.cpp): collect, merge sort by stamp, emit.
module Traverse {
  import opened Recency
  import opened LiveCache
  import opened Powers

  ghost predicate Sorted(s: seq<Line>) {
    forall i, j :: 0 <= i < j < |s| ==> s[i].order <= s[j].order
  }

  // ----- merge sort -----

  // s is a[..m] and b[..n] merged so far.
  ghost predicate Merged(s: seq<Line>, a: seq<Line>, m: nat, b: seq<Line>, n: nat)
    requires m <= |a| && n <= |b|
  {
    && Sorted(s) && multiset(s) == multiset(a[..m]) + multiset(b[..n])
    && (forall i :: 0 <= i < |s| ==> (m < |a| ==> s[i].order <= a[m].order) && (n < |b| ==> s[i].order <= b[n].order))
  }

  ghost predicate MergeOf(s: seq<Line>, a: seq<Line>, b: seq<Line>) {
    Sorted(s) && multiset(s) == multiset(a) + multiset(b)
  }

  lemma MergedFromLeft(s: seq<Line>, a: seq<Line>, m: nat, b: seq<Line>, n: nat)
    requires m < |a| && n <= |b| && Merged(s, a, m, b, n) && Sorted(a)
    requires n < |b| ==> a[m].order <= b[n].order
    ensures Merged(s + [a[m]], a, m + 1, b, n)
  {
    assert a[..m + 1] == a[..m] + [a[m]];
  }

  lemma MergedFromRight(s: seq<Line>, a: seq<Line>, m: nat, b: seq<Line>, n: nat)
    requires m <= |a| && n < |b| && Merged(s, a, m, b, n) && Sorted(b)
    requires m < |a| ==> b[n].order <= a[m].order
    ensures Merged(s + [b[n]], a, m, b, n + 1)
  {
    assert b[..n + 1] == b[..n] + [b[n]];
  }

  method Merge(arr: array<Line>, a: array<Line>, b: array<Line>)
    requires a.Length + b.Length <= arr.Length && arr != a && arr != b && Sorted(a[..]) && Sorted(b[..])
    modifies arr
    ensures MergeOf(arr[..a.Length + b.Length], a[..], b[..])
    ensures arr[a.Length + b.Length..] == old(arr[a.Length + b.Length..])
  {
    hide Merged, Sorted, MergeOf;
    var m: nat, n: nat := 0, 0;
    var len := a.Length + b.Length;
    ghost var sa, sb := a[..], b[..];
    MergedNone(sa, sb);
    for i := 0 to len
      invariant m <= a.Length && n <= b.Length && i == m + n
      invariant Merged(arr[..i], sa, m, sb, n)
      invariant forall k :: len <= k < arr.Length ==> arr[k] == old(arr[k])
    {
      ghost var s := arr[..i];
      var left := n >= b.Length || (m < a.Length && a[m].order <= b[n].order);
      if left { MergedFromLeft(s, sa, m, sb, n); } else { MergedFromRight(s, sa, m, sb, n); }
      PutAt(arr, i, if left then a[m] else b[n]);
      m, n := if left then m + 1 else m, if left then n else n + 1;
    }
    MergedAll(arr[..len], sa, sb);
  }

  // Put the next line of one half at i.
  method PutAt(arr: array<Line>, i: nat, l: Line)
    requires i < arr.Length
    modifies arr
    ensures arr[..i + 1] == old(arr[..i]) + [l]
    ensures forall k :: 0 <= k < arr.Length && k != i ==> arr[k] == old(arr[k])
  {
    arr[i] := l;
  }

  lemma MergedNone(a: seq<Line>, b: seq<Line>)
    ensures Merged([], a, 0, b, 0)
  {}

  lemma MergedAll(s: seq<Line>, a: seq<Line>, b: seq<Line>)
    requires Merged(s, a, |a|, b, |b|)
    ensures MergeOf(s, a, b)
  {
    assert a[..|a|] == a && b[..|b|] == b;
  }

  /** mergeSort: the first len lines ordered by stamp, none lost or added. */
  method MergeSort(arr: array<Line>, len: nat)
    requires len <= arr.Length
    modifies arr
    ensures Sorted(arr[..len]) && multiset(arr[..len]) == multiset(old(arr[..len]))
    ensures arr[len..] == old(arr[len..])
    decreases len
  {
    hide Sorted;
    if len < 2 {
      ShortSorted(arr[..len]);
      return;
    }
    if len == 2 {
      SortTwo(arr);
      return;
    }
    var mid := len / 2;
    var a, b := Halves(arr, mid, len);
    ghost var s, sa, sb := arr[..len], a[..], b[..];
    assert multiset(s) == multiset(sa) + multiset(sb) by { assert s == s[..mid] + s[mid..]; }
    assert a[..mid] == sa && b[..len - mid] == sb;
    MergeSort(a, mid);
    assert b[..len - mid] == sb;
    MergeSort(b, len - mid);
    assert a[..mid] == a[..] && b[..len - mid] == b[..];
    assert multiset(a[..]) == multiset(sa) && multiset(b[..]) == multiset(sb);
    Merge(arr, a, b);
    assert multiset(arr[..len]) == multiset(sa) + multiset(sb);
  }

  lemma ShortSorted(s: seq<Line>)
    requires |s| < 2
    ensures Sorted(s)
  {}

  method SortTwo(arr: array<Line>)
    requires arr.Length >= 2
    modifies arr
    ensures Sorted(arr[..2]) && multiset(arr[..2]) == multiset(old(arr[..2])) && arr[2..] == old(arr[2..])
  {
    ghost var s := arr[..2];
    assert s == [arr[0], arr[1]];
    if arr[0].order > arr[1].order {
      arr[0], arr[1] := arr[1], arr[0];
      assert arr[..2] == [s[1], s[0]];
    }
  }

  method Halves(arr: array<Line>, mid: nat, len: nat) returns (a: array<Line>, b: array<Line>)
    requires mid <= len <= arr.Length
    ensures fresh(a) && fresh(b) && a != b && a[..] == arr[..len][..mid] && b[..] == arr[..len][mid..]
  {
    a := new Line[mid](i requires 0 <= i < mid reads arr => arr[i]);
    b := new Line[len - mid](i requires 0 <= i < len - mid reads arr => arr[mid + i]);
  }

  // ----- what is in the line array -----

  // A resident tag whose stamp is not that of the very first access.
  ghost predicate Live(evs: seq<Touch>, sets: nat, assoc: nat, t: nat)
    requires sets > 0
  {
    Touched(evs, t) && t in Resident(evs, sets, assoc, SetOf(t, sets)) && LastTouch(evs, t) != 0
  }

  ghost predicate Earlier(evs: seq<Touch>, t: nat, u: nat) {
    Touched(evs, t) && Touched(evs, u) && LastTouch(evs, t) < LastTouch(evs, u)
  }

  // A line with a tag is the line of a resident tag.
  ghost predicate IsLineOf(l: Line, evs: seq<Touch>, sets: nat, assoc: nat)
    requires sets > 0
  {
    Touched(evs, l.tag) && l.tag in Resident(evs, sets, assoc, SetOf(l.tag, sets))
      && l == LineFor(evs, sets, assoc, l.tag)
  }

  lemma Position(p: nat, sets: nat, assoc: nat)
    requires p < sets * assoc && assoc > 0
    ensures 0 <= p / assoc < sets && p % assoc < assoc && p == p / assoc * assoc + p % assoc
  {
    DivMod(p, assoc);
    DivLt(p, assoc, sets);
  }

  lemma LineAt(c: seq<Line>, evs: seq<Touch>, sets: nat, assoc: nat, p: nat)
    requires sets > 0 && assoc > 0 && |c| == sets * assoc && SetsOk(c, evs, sets, assoc) && Tagged(evs) && p < |c|
    ensures c[p].tag != 0 ==> IsLineOf(c[p], evs, sets, assoc)
    ensures c[p].tag != 0 ==> var r := Resident(evs, sets, assoc, SetOf(c[p].tag, sets));
      p / assoc == SetOf(c[p].tag, sets) && 0 <= p % assoc < |r| && r[p % assoc] == c[p].tag
  {
    hide SetOf, Resident, Touched, LastTouch, Written;
    Position(p, sets, assoc);
    var k, w := p / assoc, p % assoc;
    assert InSet(c, k, assoc) && SetOk(SetSlice(c, k, assoc), evs, sets, assoc, k);
    assert SetSlice(c, k, assoc)[w] == c[p];
    SetTags(SetSlice(c, k, assoc), evs, sets, assoc, k, w);
    if c[p].tag != 0 { ResidentHere(evs, sets, assoc, k, w); }
  }

  // No tag stands in two places.
  lemma TagOnce(c: seq<Line>, evs: seq<Touch>, sets: nat, assoc: nat, p: nat, q: nat)
    requires sets > 0 && assoc > 0 && |c| == sets * assoc && SetsOk(c, evs, sets, assoc) && Tagged(evs)
    requires p < |c| && q < |c| && c[p].tag == c[q].tag != 0
    ensures p == q
  {
    hide SetOf, Resident, Touched, SetsOk;
    LineAt(c, evs, sets, assoc, p);
    LineAt(c, evs, sets, assoc, q);
    Position(p, sets, assoc);
    Position(q, sets, assoc);
    if p % assoc != q % assoc { ResidentDistinct(evs, sets, assoc, SetOf(c[p].tag, sets), p % assoc, q % assoc); }
  }

  lemma ResidentPlace(c: seq<Line>, evs: seq<Touch>, sets: nat, assoc: nat, t: nat)
    requires sets > 0 && assoc > 0 && |c| == sets * assoc && SetsOk(c, evs, sets, assoc) && Tagged(evs)
    requires SetOf(t, sets) < sets && t in Resident(evs, sets, assoc, SetOf(t, sets)) && Touched(evs, t)
    ensures LineFor(evs, sets, assoc, t) in c
  {
    hide SetOf, Resident, Touched, LastTouch, Written;
    var k := SetOf(t, sets);
    var r := Resident(evs, sets, assoc, k);
    var w :| 0 <= w < |r| && r[w] == t;
    assert InSet(c, k, assoc) && SetOk(SetSlice(c, k, assoc), evs, sets, assoc, k);
    assert c[k * assoc + w] == SetSlice(c, k, assoc)[w];
  }

  // ----- collecting, sorting, emitting -----

  function Stamped(s: seq<Line>): seq<Line> {
    if s == [] then [] else Stamped(s[..|s| - 1]) + if s[|s| - 1].order != 0 then [s[|s| - 1]] else []
  }

  function TaggedLines(s: seq<Line>): seq<Line> {
    if s == [] then [] else TaggedLines(s[..|s| - 1]) + if s[|s| - 1].tag != 0 then [s[|s| - 1]] else []
  }

  lemma {:induction false} StampedHas(s: seq<Line>, l: Line)
    ensures l in Stamped(s) <==> l in s && l.order != 0
    ensures l.order != 0 ==> multiset(Stamped(s))[l] == multiset(s)[l]
  {
    if s != [] {
      StampedHas(s[..|s| - 1], l);
      assert s == s[..|s| - 1] + [s[|s| - 1]];
    }
  }

  lemma {:induction false} TaggedHas(s: seq<Line>, l: Line)
    ensures l in TaggedLines(s) <==> l in s && l.tag != 0
    ensures l.tag != 0 ==> multiset(TaggedLines(s))[l] == multiset(s)[l]
  {
    if s != [] {
      TaggedHas(s[..|s| - 1], l);
      assert s == s[..|s| - 1] + [s[|s| - 1]];
    }
  }

  lemma {:induction false} TaggedSorted(s: seq<Line>)
    requires Sorted(s)
    ensures Sorted(TaggedLines(s))
    ensures forall l :: l in TaggedLines(s) ==> l in s
  {
    if s != [] {
      TaggedSorted(s[..|s| - 1]);
      var r, l := TaggedLines(s[..|s| - 1]), s[|s| - 1];
      forall i | 0 <= i < |r| ensures r[i].order <= l.order {
        assert r[i] in r;
        assert r[i] in s[..|s| - 1];
      }
    }
  }

  lemma TwoPlaces(s: seq<Line>, i: nat, j: nat)
    requires i < j < |s| && s[i] == s[j]
    ensures multiset(s)[s[i]] >= 2
  {
    assert s == s[..j] + [s[j]] + s[j + 1..];
    assert s[i] in s[..j];
  }

  lemma {:induction false} OnePlace(s: seq<Line>, l: Line)
    requires forall i, j :: 0 <= i < j < |s| && s[i] == l ==> s[j] != l
    ensures multiset(s)[l] <= 1
  {
    if s != [] {
      var t := s[..|s| - 1];
      OnePlace(t, l);
      assert s == t + [s[|s| - 1]];
      if s[|s| - 1] == l { assert l !in t; }
    }
  }

  function Emit(l: Line): nat { l.tag * LINE_SIZE + if l.st then 1 else 0 }

  // The lines emitted: every live line of c once, by increasing stamp.
  lemma EmittedLines(c: seq<Line>, sorted: seq<Line>, evs: seq<Touch>, sets: nat, assoc: nat)
    requires sets > 0 && assoc > 0 && |c| == sets * assoc && SetsOk(c, evs, sets, assoc) && Tagged(evs)
    requires Sorted(sorted) && multiset(sorted) == multiset(Stamped(c))
    ensures var r := TaggedLines(sorted);
      && (forall i :: 0 <= i < |r| ==> IsLineOf(r[i], evs, sets, assoc) && r[i].order != 0)
      && (forall i, j :: 0 <= i < j < |r| ==> r[i].order < r[j].order)
      && (forall l :: l in c && l.tag != 0 && l.order != 0 ==> l in r)
  {
    hide SetOf, Resident, Touched, SetsOk, LineFor, IsLineOf, Stamped, TaggedLines;
    var r := TaggedLines(sorted);
    TaggedSorted(sorted);
    forall l ensures l in r <==> l in c && l.tag != 0 && l.order != 0 {
      TaggedHas(sorted, l);
      StampedHas(c, l);
      assert l in sorted <==> l in multiset(sorted);
      assert l in Stamped(c) <==> l in multiset(Stamped(c));
    }
    forall i | 0 <= i < |r| ensures IsLineOf(r[i], evs, sets, assoc) && r[i].order != 0 {
      assert r[i] in r;
      var p :| 0 <= p < |c| && c[p] == r[i];
      LineAt(c, evs, sets, assoc, p);
    }
    forall i, j | 0 <= i < j < |r| ensures r[i].order < r[j].order {
      NotTwice(c, sorted, evs, sets, assoc, i, j);
      assert r[i] in r && r[j] in r;
      OrdersDiffer(r[i], r[j], evs, sets, assoc);
    }
  }

  lemma NotTwice(c: seq<Line>, sorted: seq<Line>, evs: seq<Touch>, sets: nat, assoc: nat, i: nat, j: nat)
    requires sets > 0 && assoc > 0 && |c| == sets * assoc && SetsOk(c, evs, sets, assoc) && Tagged(evs)
    requires multiset(sorted) == multiset(Stamped(c)) && i < j < |TaggedLines(sorted)|
    ensures TaggedLines(sorted)[i] != TaggedLines(sorted)[j]
  {
    hide SetOf, Resident, Touched, SetsOk, LineFor, IsLineOf, Stamped, TaggedLines;
    var r := TaggedLines(sorted);
    var l := r[i];
    if r[j] == l {
      TwoPlaces(r, i, j);
      assert l in r;
      TaggedHas(sorted, l);
      StampedHas(c, l);
      assert l in multiset(sorted) && l in multiset(Stamped(c));
      forall p, q | 0 <= p < q < |c| && c[p] == l ensures c[q] != l {
        if c[q] == l { TagOnce(c, evs, sets, assoc, p, q); }
      }
      OnePlace(c, l);
    }
  }

  lemma OrdersDiffer(l: Line, m: Line, evs: seq<Touch>, sets: nat, assoc: nat)
    requires sets > 0 && IsLineOf(l, evs, sets, assoc) && IsLineOf(m, evs, sets, assoc) && l != m
    ensures l.order != m.order
  {
    hide SetOf, Resident, Written;
    if l.tag != m.tag { LastTouchDistinct(evs, l.tag, m.tag); }
  }

  /** traverse: one address per live tag, by increasing last access, its low bit the store mark. */
  method Traverse(cache: Cache) returns (addrs: seq<nat>)
    requires cache.Valid()
    ensures forall i :: 0 <= i < |addrs| ==>
              var t := addrs[i] / LINE_SIZE;
              && Live(cache.evs, cache.sets, cache.assoc, t)
              && addrs[i] % LINE_SIZE == if Written(cache.evs, cache.sets, cache.assoc, t) then 1 else 0
    ensures forall i, j :: 0 <= i < j < |addrs| ==>
              Earlier(cache.evs, addrs[i] / LINE_SIZE, addrs[j] / LINE_SIZE)
    ensures forall t {:trigger Live(cache.evs, cache.sets, cache.assoc, t)} ::
              Live(cache.evs, cache.sets, cache.assoc, t) ==> exists i :: 0 <= i < |addrs| && addrs[i] / LINE_SIZE == t
  {
    hide SetOf, Resident, Touched, SetsOk, Stamped, TaggedLines, Sorted, LastTouch, Written, Live, IsLineOf, Earlier;
    ghost var c := cache.content[..];
    var arr := new Line[cache.content.Length](_ => Line(0, 0, false));
    var cnt := Collect(cache.content, arr);
    MergeSort(arr, cnt);
    ghost var sorted := arr[..cnt];
    addrs := EmitAll(arr, cnt);
    EmittedLines(c, sorted, cache.evs, cache.sets, cache.assoc);
    AddressesOk(c, TaggedLines(sorted), addrs, cache.evs, cache.sets, cache.assoc);
  }

  method Collect(content: array<Line>, arr: array<Line>) returns (cnt: nat)
    requires arr.Length == content.Length && arr != content
    modifies arr
    ensures cnt <= arr.Length && arr[..cnt] == Stamped(content[..])
  {
    cnt := 0;
    for i := 0 to content.Length
      invariant cnt <= i && arr[..cnt] == Stamped(content[..i])
    {
      assert content[..i + 1][..i] == content[..i];
      if content[i].order != 0 {
        arr[cnt] := content[i];
        cnt := cnt + 1;
        assert arr[..cnt] == arr[..cnt - 1] + [content[i]];
      }
    }
    assert content[..content.Length] == content[..];
  }

  function EmitSeq(s: seq<Line>): (r: seq<nat>)
    ensures |r| == |s| && forall i :: 0 <= i < |s| ==> r[i] == Emit(s[i])
  {
    seq(|s|, i requires 0 <= i < |s| => Emit(s[i]))
  }

  method EmitAll(arr: array<Line>, cnt: nat) returns (addrs: seq<nat>)
    requires cnt <= arr.Length
    ensures addrs == EmitSeq(TaggedLines(arr[..cnt]))
  {
    addrs := [];
    for i := 0 to cnt
      invariant addrs == EmitSeq(TaggedLines(arr[..i]))
    {
      assert arr[..i + 1][..i] == arr[..i];
      if arr[i].tag != 0 {
        addrs := addrs + [if arr[i].st then 1 + arr[i].tag * LINE_SIZE else arr[i].tag * LINE_SIZE];
      }
    }
  }

  lemma AddressesOk(c: seq<Line>, r: seq<Line>, addrs: seq<nat>, evs: seq<Touch>, sets: nat, assoc: nat)
    requires sets > 0 && assoc > 0 && |c| == sets * assoc && SetsOk(c, evs, sets, assoc) && Tagged(evs)
    requires addrs == EmitSeq(r)
    requires forall i :: 0 <= i < |r| ==> IsLineOf(r[i], evs, sets, assoc) && r[i].order != 0
    requires forall i, j :: 0 <= i < j < |r| ==> r[i].order < r[j].order
    requires forall l :: l in c && l.tag != 0 && l.order != 0 ==> l in r
    ensures forall i :: 0 <= i < |addrs| ==>
              && Live(evs, sets, assoc, addrs[i] / LINE_SIZE)
              && addrs[i] % LINE_SIZE == if Written(evs, sets, assoc, addrs[i] / LINE_SIZE) then 1 else 0
    ensures forall i, j :: 0 <= i < j < |addrs| ==> Earlier(evs, addrs[i] / LINE_SIZE, addrs[j] / LINE_SIZE)
    ensures forall t {:trigger Live(evs, sets, assoc, t)} :: Live(evs, sets, assoc, t) ==>
            exists i :: 0 <= i < |addrs| && addrs[i] / LINE_SIZE == t
  {
    hide SetOf, Resident, Touched, SetsOk, LastTouch, Written, EmitSeq;
    forall i | 0 <= i < |addrs|
      ensures addrs[i] / LINE_SIZE == r[i].tag && addrs[i] % LINE_SIZE == if r[i].st then 1 else 0
    {}
    forall t | Live(evs, sets, assoc, t) ensures exists i :: 0 <= i < |addrs| && addrs[i] / LINE_SIZE == t {
      SetIn(t, sets);
      ResidentPlace(c, evs, sets, assoc, t);
      TagNonzero(evs, t);
      var l := LineFor(evs, sets, assoc, t);
      assert l in r;
      var i :| 0 <= i < |r| && r[i] == l;
      assert addrs[i] / LINE_SIZE == t;
    }
  }

  lemma SetIn(t: nat, sets: nat)
    requires sets > 0
    ensures SetOf(t, sets) < sets
  {}

  lemma TagNonzero(evs: seq<Touch>, t: nat)
    requires Tagged(evs) && Touched(evs, t)
    ensures t != 0
  {}
}