// The live cache (include/LiveCacheCore.h, src/LiveCache.cpp): sets kept in move-to-front order
// in one array of lines, and the traversal that lists them oldest access first.
module LiveCache {
  import opened Recency

  const LINE_SIZE: nat := 64

  // The element at j moved to the front, the ones before it one back.
  function ToFront<T>(s: seq<T>, j: nat): seq<T>
    requires j < |s|
  {
    [s[j]] + s[..j] + s[j + 1..]
  }

  // What the last event of evs does to the resident tags of set k.
  lemma ResidentStep(evs: seq<Touch>, sets: nat, assoc: nat, k: nat)
    requires sets > 0 && assoc > 0 && evs != []
    ensures var pre, t := evs[..|evs| - 1], evs[|evs| - 1].tag;
            var r, r' := Resident(pre, sets, assoc, k), Resident(evs, sets, assoc, k);
            if SetOf(t, sets) != k then r' == r
            else if t in r then forall j {:trigger r[j]} :: 0 <= j < |r| && r[j] == t ==> r' == ToFront(r, j)
            else r' == Take([t] + r, assoc)
  {
    hide SetOf, Without, ToFront, Take;
    var pre, t := evs[..|evs| - 1], evs[|evs| - 1].tag;
    var full, r := ByRecency(pre, sets, k), Resident(pre, sets, assoc, k);
    RecencyDistinct(pre, sets, k);
    if SetOf(t, sets) == k {
      forall j | 0 <= j < |r| && r[j] == t ensures Resident(evs, sets, assoc, k) == ToFront(r, j) {
        HitTake(full, j, assoc);
      }
      if t !in r {
        MissTake(full, t, assoc);
      }
    }
  }

  lemma HitTake(full: seq<nat>, j: nat, assoc: nat)
    requires (forall a, b :: 0 <= a < b < |full| ==> full[a] != full[b]) && j < |Take(full, assoc)|
    ensures |Take(full, assoc)| <= |full| && Take(full, assoc)[j] == full[j]
    ensures Take([full[j]] + Without(full, full[j]), assoc) == ToFront(Take(full, assoc), j)
  {
    hide Without, ToFront;
    WithoutAt(full, j);
    TakeMoved(full, j, assoc);
  }

  lemma TakeMoved(full: seq<nat>, j: nat, assoc: nat)
    requires j < |full| && j < assoc
    ensures Take([full[j]] + (full[..j] + full[j + 1..]), assoc) == ToFront(Take(full, assoc), j)
  {
    var a, b := [full[j]] + (full[..j] + full[j + 1..]), Take(full, assoc);
    if |full| > assoc {
      assert b[..j] == full[..j] && b[j + 1..] == full[j + 1..assoc];
      assert a[..assoc] == [full[j]] + full[..j] + full[j + 1..assoc];
    }
  }

  lemma MissTake(full: seq<nat>, t: nat, assoc: nat)
    requires assoc > 0 && t !in Take(full, assoc)
    ensures Take([t] + Without(full, t), assoc) == Take([t] + Take(full, assoc), assoc)
  {
    hide Without;
    if |full| < assoc {
      WithoutAbsent(full, t);
    } else {
      var n: nat := assoc - 1;
      assert full[..n] == full[..assoc][..n];
      WithoutPrefix(full, t, n);
      TakeCons(t, Without(full, t), n);
      TakeCons(t, Take(full, assoc), n);
    }
  }

  lemma TakeCons(t: nat, s: seq<nat>, n: nat)
    requires n <= |s|
    ensures Take([t] + s, n + 1) == [t] + s[..n]
  {}

  // The line that stands for tag t after evs.
  function LineFor(evs: seq<Touch>, sets: nat, assoc: nat, t: nat): Line
    requires sets > 0 && Touched(evs, t)
  {
    Line(t, LastTouch(evs, t), Written(evs, sets, assoc, t))
  }

  /** A set holds the last `assoc` distinct tags, most recent first, with their stamps and store
      marks; the rest of it is empty. */
  ghost predicate SetOk(lines: seq<Line>, evs: seq<Touch>, sets: nat, assoc: nat, k: nat)
    requires sets > 0
  {
    var r := Resident(evs, sets, assoc, k);
    && |lines| == assoc
    && forall w :: 0 <= w < assoc ==>
         if w < |r| then Touched(evs, r[w]) && lines[w] == LineFor(evs, sets, assoc, r[w]) else lines[w].tag == 0
  }

  ghost predicate Tagged(evs: seq<Touch>) { forall i :: 0 <= i < |evs| ==> evs[i].tag != 0 }

  lemma SetTags(lines: seq<Line>, evs: seq<Touch>, sets: nat, assoc: nat, k: nat, w: nat)
    requires sets > 0 && SetOk(lines, evs, sets, assoc, k) && Tagged(evs) && w < assoc
    ensures var r := Resident(evs, sets, assoc, k);
      if w < |r| then lines[w].tag == r[w] != 0 else lines[w].tag == 0
  {}

  lemma LineKept(evs: seq<Touch>, sets: nat, assoc: nat, t: nat)
    requires sets > 0 && evs != [] && evs[|evs| - 1].tag != t && Touched(evs[..|evs| - 1], t)
    ensures Touched(evs, t) && LineFor(evs, sets, assoc, t) == LineFor(evs[..|evs| - 1], sets, assoc, t)
  {
    TouchedStep(evs, t);
  }

  // The line of the tag just accessed.
  lemma LineNew(evs: seq<Touch>, sets: nat, assoc: nat)
    requires sets > 0 && evs != []
    ensures var pre, ev := evs[..|evs| - 1], evs[|evs| - 1];
      && Touched(evs, ev.tag)
      && LineFor(evs, sets, assoc, ev.tag) ==
           Line(ev.tag, |pre|, ev.write || (ev.tag in Resident(pre, sets, assoc, SetOf(ev.tag, sets))
             && Written(pre, sets, assoc, ev.tag)))
  {
    TouchedStep(evs, evs[|evs| - 1].tag);
  }

  lemma OtherSetOk(lines: seq<Line>, evs: seq<Touch>, sets: nat, assoc: nat, k: nat)
    requires sets > 0 && assoc > 0 && evs != [] && SetOf(evs[|evs| - 1].tag, sets) != k
    requires SetOk(lines, evs[..|evs| - 1], sets, assoc, k)
    ensures SetOk(lines, evs, sets, assoc, k)
  {
    var pre := evs[..|evs| - 1];
    ResidentStep(evs, sets, assoc, k);
    var r := Resident(pre, sets, assoc, k);
    forall w | 0 <= w < |r|
      ensures Touched(evs, r[w]) && LineFor(evs, sets, assoc, r[w]) == LineFor(pre, sets, assoc, r[w])
    {
      ResidentHere(pre, sets, assoc, k, w);
      LineKept(evs, sets, assoc, r[w]);
    }
  }

  lemma ResidentHere(evs: seq<Touch>, sets: nat, assoc: nat, k: nat, w: nat)
    requires sets > 0 && w < |Resident(evs, sets, assoc, k)|
    ensures var t := Resident(evs, sets, assoc, k)[w]; SetOf(t, sets) == k && Touched(evs, t)
  {
    var t := Resident(evs, sets, assoc, k)[w];
    assert t == ByRecency(evs, sets, k)[w];
    assert t in ByRecency(evs, sets, k);
    RecencyTouched(evs, sets, k, t);
  }

  // A hit at position j.
  lemma HitSetOk(lines: seq<Line>, evs: seq<Touch>, sets: nat, assoc: nat, j: nat)
    requires sets > 0 && assoc > 0 && evs != [] && j < assoc && Tagged(evs)
    requires var k := SetOf(evs[|evs| - 1].tag, sets); SetOk(lines, evs[..|evs| - 1], sets, assoc, k)
    requires lines[j].tag == evs[|evs| - 1].tag
    ensures var ev := evs[|evs| - 1];
      SetOk(ToFront(lines, j)[0 := Line(ev.tag, |evs| - 1, ev.write || lines[j].st)], evs, sets, assoc,
        SetOf(ev.tag, sets))
  {
    hide SetOf, Resident, ByRecency, Touched, LastTouch, Written;
    var pre, ev := evs[..|evs| - 1], evs[|evs| - 1];
    var k := SetOf(ev.tag, sets);
    var r := Resident(pre, sets, assoc, k);
    assert Tagged(pre);
    SetTags(lines, pre, sets, assoc, k, j);
    assert r[j] == ev.tag && ev.tag in r;
    ResidentStep(evs, sets, assoc, k);
    LineNew(evs, sets, assoc);
    var r' := Resident(evs, sets, assoc, k);
    assert r' == ToFront(r, j);
    forall w | 0 <= w < |r| && w != j
      ensures Touched(evs, r[w]) && LineFor(evs, sets, assoc, r[w]) == lines[w]
    {
      ResidentHere(pre, sets, assoc, k, w);
      ResidentDistinct(pre, sets, assoc, k, w, j);
      LineKept(evs, sets, assoc, r[w]);
    }
    var now := ToFront(lines, j)[0 := Line(ev.tag, |evs| - 1, ev.write || lines[j].st)];
    forall w | 0 < w < assoc
      ensures if w < |r'| then Touched(evs, r'[w]) && now[w] == LineFor(evs, sets, assoc, r'[w]) else now[w].tag == 0
    {
      var from := if w <= j then w - 1 else w;
      assert now[w] == lines[from];
      if w < |r'| { assert r'[w] == r[from]; }
    }
  }

  lemma ResidentDistinct(evs: seq<Touch>, sets: nat, assoc: nat, k: nat, a: nat, b: nat)
    requires sets > 0 && a < |Resident(evs, sets, assoc, k)| && b < |Resident(evs, sets, assoc, k)| && a != b
    ensures Resident(evs, sets, assoc, k)[a] != Resident(evs, sets, assoc, k)[b]
  {
    RecencyDistinct(evs, sets, k);
    var full := ByRecency(evs, sets, k);
    assert if a < b then full[a] != full[b] else full[b] != full[a];
  }

  // A miss replaces the last line of the set.
  lemma MissSetOk(lines: seq<Line>, evs: seq<Touch>, sets: nat, assoc: nat)
    requires sets > 0 && assoc > 0 && evs != [] && Tagged(evs)
    requires var k := SetOf(evs[|evs| - 1].tag, sets); SetOk(lines, evs[..|evs| - 1], sets, assoc, k)
    requires forall w :: 0 <= w < assoc ==> lines[w].tag != evs[|evs| - 1].tag
    ensures var ev := evs[|evs| - 1];
      SetOk(ToFront(lines, assoc - 1)[0 := Line(ev.tag, |evs| - 1, ev.write)], evs, sets, assoc, SetOf(ev.tag, sets))
  {
    hide SetOf, Resident, ByRecency, Touched, LastTouch, Written;
    var pre, ev := evs[..|evs| - 1], evs[|evs| - 1];
    var k := SetOf(ev.tag, sets);
    var r := Resident(pre, sets, assoc, k);
    assert Tagged(pre);
    forall w | 0 <= w < |r| ensures r[w] != ev.tag { SetTags(lines, pre, sets, assoc, k, w); }
    ResidentStep(evs, sets, assoc, k);
    LineNew(evs, sets, assoc);
    forall w | 0 <= w < |r| ensures Touched(evs, r[w]) && LineFor(evs, sets, assoc, r[w]) == lines[w] {
      ResidentHere(pre, sets, assoc, k, w);
      LineKept(evs, sets, assoc, r[w]);
    }
    var r' := Resident(evs, sets, assoc, k);
    assert r' == Take([ev.tag] + r, assoc);
    var now := ToFront(lines, assoc - 1)[0 := Line(ev.tag, |evs| - 1, ev.write)];
    forall w | 0 < w < assoc
      ensures if w < |r'| then Touched(evs, r'[w]) && now[w] == LineFor(evs, sets, assoc, r'[w]) else now[w].tag == 0
    {
      assert now[w] == lines[w - 1];
      if w < |r'| { assert r'[w] == r[w - 1]; }
    }
  }

  lemma SetRange(k: nat, sets: nat, assoc: nat)
    requires k < sets
    ensures 0 <= k * assoc && k * assoc + assoc <= sets * assoc
  {
    assert (k + 1) * assoc <= sets * assoc;
    assert (k + 1) * assoc == k * assoc + assoc;
  }

  lemma SetsApart(k: nat, l: nat, assoc: nat)
    requires k != l
    ensures k * assoc + assoc <= l * assoc || l * assoc + assoc <= k * assoc
  {
    if k < l { SetRange(k, l, assoc); } else { SetRange(l, k, assoc); }
  }

  lemma FrontIs<T>(s: seq<T>, j: nat)
    requires j < |s|
    ensures |ToFront(s, j)| == |s| && ToFront(s, j)[0] == s[j]
  {}

  predicate InSet<T>(s: seq<T>, k: nat, assoc: nat) { k * assoc + assoc <= |s| }

  ghost predicate HasTag(lines: seq<Line>, t: nat) { exists w :: 0 <= w < |lines| && lines[w].tag == t }

  function SetSlice<T>(s: seq<T>, k: nat, assoc: nat): seq<T>
    requires InSet(s, k, assoc)
  {
    s[k * assoc..k * assoc + assoc]
  }

  ghost predicate SetsOk(c: seq<Line>, evs: seq<Touch>, sets: nat, assoc: nat)
    requires sets > 0
  {
    forall k :: 0 <= k < sets ==> InSet(c, k, assoc) && SetOk(SetSlice(c, k, assoc), evs, sets, assoc, k)
  }

  // The line array after an access to tag t in its set: a hit at j, or a miss.
  ghost predicate Accessed(was: seq<Line>, now: seq<Line>, n: nat, ev: Touch, b: nat, assoc: nat, found: bool, j: nat)
    requires assoc > 0 && b + assoc <= |was|
  {
    var s := was[b..b + assoc];
    && |now| == |was|
    && (forall i :: 0 <= i < |was| && !(b <= i < b + assoc) ==> now[i] == was[i])
    && (if found then j < assoc && s[j].tag == ev.tag
       && now[b..b + assoc] == ToFront(s, j)[0 := Line(ev.tag, n, ev.write || s[j].st)]
        else (forall w :: 0 <= w < assoc ==> s[w].tag != ev.tag)
             && now[b..b + assoc] == ToFront(s, assoc - 1)[0 := Line(ev.tag, n, ev.write)])
  }

  lemma SliceIs(s: seq<Line>, k: nat, assoc: nat)
    requires InSet(s, k, assoc)
    ensures SetSlice(s, k, assoc) == s[k * assoc..k * assoc + assoc]
  {}

  lemma OtherSlice(was: seq<Line>, now: seq<Line>, l: nat, k: nat, assoc: nat)
    requires l != k && InSet(was, l, assoc) && |now| == |was|
    requires forall i :: 0 <= i < |was| && !(k * assoc <= i < k * assoc + assoc) ==> now[i] == was[i]
    ensures InSet(now, l, assoc) && SetSlice(now, l, assoc) == SetSlice(was, l, assoc)
  {
    SetsApart(l, k, assoc);
  }

  /** One access keeps every set exact. */
  lemma AccessOk(was: seq<Line>, now: seq<Line>, evs: seq<Touch>, ev: Touch, sets: nat, assoc: nat, found: bool, j: nat)
    requires sets > 0 && assoc > 0 && Tagged(evs) && ev.tag != 0 && SetsOk(was, evs, sets, assoc)
    requires var k := SetOf(ev.tag, sets);
      k < sets && InSet(was, k, assoc) && Accessed(was, now, |evs|, ev, k * assoc, assoc, found, j)
    ensures SetsOk(now, evs + [ev], sets, assoc) && Tagged(evs + [ev])
  {
    hide SetOf, Resident, SetOk, ToFront, SetSlice;
    var k, evs' := SetOf(ev.tag, sets), evs + [ev];
    assert evs'[..|evs'| - 1] == evs;
    SliceIs(was, k, assoc);
    SliceIs(now, k, assoc);
    forall l | 0 <= l < sets ensures InSet(now, l, assoc) && SetOk(SetSlice(now, l, assoc), evs', sets, assoc, l) {
      assert InSet(was, l, assoc) && SetOk(SetSlice(was, l, assoc), evs, sets, assoc, l);
      if l != k {
        OtherSlice(was, now, l, k, assoc);
        OtherSetOk(SetSlice(now, l, assoc), evs', sets, assoc, l);
      } else if found {
        HitSetOk(SetSlice(was, l, assoc), evs', sets, assoc, j);
      } else {
        MissSetOk(SetSlice(was, l, assoc), evs', sets, assoc);
      }
    }
  }

  class Cache {
    const sets: nat
    const assoc: nat
    const content: array<Line>
    const memBase: nat
    const memEnd: nat
    var maxOrder: nat
    var hits: nat
    var misses: nat

    // The tracked accesses so far.
    ghost var evs: seq<Touch>

    ghost predicate Shaped() {
      sets > 0 && assoc > 0 && content.Length == sets * assoc
    }

    /** Every set is exact for the accesses so far. */
    ghost predicate Valid()
      reads this, content
    {
      Shaped() && maxOrder == |evs| && Tagged(evs) && SetsOk(content[..], evs, sets, assoc)
    }

    constructor (sets: nat, assoc: nat, memBase: nat, memSize: nat)
      requires sets > 0 && assoc > 0
      ensures Valid() && evs == [] && fresh(content)
    {
      this.sets, this.assoc, this.memBase, this.memEnd := sets, assoc, memBase, memBase + memSize;
      // order and st of an unused line are never looked at without a tag
      content := new Line[sets * assoc](_ => Line(0, 0, false));
      maxOrder, hits, misses := 0, 0, 0;
      evs := [];
      new;
      forall k | 0 <= k < sets
        ensures InSet(content[..], k, assoc) && SetOk(SetSlice(content[..], k, assoc), evs, sets, assoc, k)
      {
        SetRange(k, sets, assoc);
      }
    }

    // Move the line at position j of the set at b to the front.
    method Rotate(b: nat, j: nat)
      requires j < assoc && b + assoc <= content.Length
      modifies content
      ensures content[b..b + assoc] == ToFront(old(content[b..b + assoc]), j)
      ensures forall i :: 0 <= i < content.Length && !(b <= i < b + assoc) ==> content[i] == old(content[i])
    {
      var tmp := content[b + j];
      var l := j;
      while l > 0
        invariant 0 <= l <= j
        invariant forall i :: 0 <= i < content.Length ==>
                    content[i] == if b + l < i <= b + j then old(content[i - 1]) else old(content[i])
      {
        content[b + l] := content[b + l - 1];
        l := l - 1;
      }
      content[b] := tmp;
      ghost var s := old(content[b..b + assoc]);
      forall w | 0 <= w < assoc ensures content[b + w] == ToFront(s, j)[w] {
        if w > 0 { assert s[w - 1] == old(content[b + w - 1]) && s[w] == old(content[b + w]); }
      }
    }

    /** findLinePrivate: a hit moves its line to the front. */
    method FindLine(tag: nat, b: nat) returns (found: bool, ghost j: nat)
      requires assoc > 0 && b + assoc <= content.Length
      modifies content
      ensures found ==> j < assoc && old(content[b + j].tag) == tag
      ensures found ==> content[b..b + assoc] == ToFront(old(content[b..b + assoc]), j)
      ensures !found ==> content[..] == old(content[..]) && forall i :: b <= i < b + assoc ==> content[i].tag != tag
      ensures forall i :: 0 <= i < content.Length && !(b <= i < b + assoc) ==> content[i] == old(content[i])
    {
      if content[b].tag == tag {
        assert ToFront(content[b..b + assoc], 0) == content[b..b + assoc];
        return true, 0;
      }
      var l := 1;
      while l < assoc && content[b + l].tag != tag
        invariant 1 <= l <= assoc
        invariant forall i :: b <= i < b + l ==> content[i].tag != tag
      {
        l := l + 1;
      }
      if l == assoc { return false, 0; }
      Rotate(b, l);
      return true, l;
    }

    /** findLine2Replace and fillLine under the LRU policy, for a tag that is not in the set. */
    method FillLine(tag: nat, b: nat)
      requires assoc > 0 && b + assoc <= content.Length
      requires forall i :: b <= i < b + assoc ==> content[i].tag != tag
      modifies content
      ensures var s := ToFront(old(content[b..b + assoc]), assoc - 1);
        content[b..b + assoc] == s[0 := s[0].(tag := tag)]
      ensures forall i :: 0 <= i < content.Length && !(b <= i < b + assoc) ==> content[i] == old(content[i])
    {
      // the search for the tag finds nothing; the victim is the last line of the set
      if assoc == 1 {
        assert ToFront(content[b..b + 1], 0) == content[b..b + 1];
      } else {
        Rotate(b, assoc - 1);
      }
      content[b] := content[b].(tag := tag);
    }

    /** read and write: the tracked access is recorded and every set stays exact. */
    method Access(addr: nat, write: bool)
      requires Valid() && (memBase <= addr <= memEnd ==> addr / LINE_SIZE != 0)
      modifies this, content
      ensures Valid()
      ensures evs == if memBase <= addr <= memEnd then old(evs) + [Touch(addr / LINE_SIZE, write)] else old(evs)
      ensures memBase <= addr <= memEnd ==>
                var hit := addr / LINE_SIZE in Resident(old(evs), sets, assoc, SetOf(addr / LINE_SIZE, sets));
                hits == old(hits) + (if hit then 1 else 0) && misses == old(misses) + (if hit then 0 else 1)
    {
      hide SetOf, Resident, SetsOk, SetOk, ToFront;
      if addr < memBase || addr > memEnd { return; }
      var tag := addr / LINE_SIZE;
      var k := SetIndex(tag);
      SetRange(k, sets, assoc);
      ghost var was := content[..];
      SetHolds(was, evs, sets, assoc, k, tag);
      var found, j := TouchSet(tag, k * assoc, write);
      if found { hits := hits + 1; } else { misses := misses + 1; }
      assert content[k * assoc..k * assoc + assoc] == content[..][k * assoc..k * assoc + assoc];
      AccessOk(was, content[..], evs, Touch(tag, write), sets, assoc, found, j);
      evs := evs + [Touch(tag, write)];
    }

    // The lookup and, on a miss, the fill; then the stamp and the store mark of the front line.
    method TouchSet(tag: nat, b: nat, write: bool) returns (found: bool, ghost j: nat)
      requires assoc > 0 && b + assoc <= content.Length
      modifies content, this`maxOrder
      ensures maxOrder == old(maxOrder) + 1
      ensures Accessed(old(content[..]), content[..], old(maxOrder), Touch(tag, write), b, assoc, found, j)
      ensures found <==> HasTag(old(content[..])[b..b + assoc], tag)
    {
      hide ToFront;
      assert content[..][b..b + assoc] == content[b..b + assoc];
      ghost var s := content[b..b + assoc];
      found, j := FindLine(tag, b);
      FrontIs(s, if found then j else assoc - 1);
      if !found {
        forall w | 0 <= w < assoc ensures s[w].tag != tag { assert s[w] == old(content[b + w]); }
        FillClean(tag, b);
      }
      Stamp(b, write);
      assert content[..][b..b + assoc] == content[b..b + assoc];
      assert !found ==> content[b..b + assoc] == ToFront(s, assoc - 1)[0 := Line(tag, old(maxOrder), write)];
    }

    // The filled line starts without a store mark.
    method FillClean(tag: nat, b: nat)
      requires assoc > 0 && b + assoc <= content.Length
      requires forall i :: b <= i < b + assoc ==> content[i].tag != tag
      modifies content
      ensures var s := ToFront(old(content[b..b + assoc]), assoc - 1);
        exists o :: content[b..b + assoc] == s[0 := Line(tag, o, false)]
      ensures forall i :: 0 <= i < content.Length && !(b <= i < b + assoc) ==> content[i] == old(content[i])
    {
      FillLine(tag, b);
      ghost var s := content[b..b + assoc];
      content[b] := content[b].(st := false);
      assert content[b..b + assoc] == s[0 := Line(tag, s[0].order, false)];
      assert content[b..b + assoc] == ToFront(old(content[b..b + assoc]), assoc - 1)[0 := Line(tag, s[0].order, false)];
    }

    method SetIndex(tag: nat) returns (k: nat)
      requires sets > 0
      ensures k == SetOf(tag, sets) && k < sets && k == tag % sets
    {
      k := tag % sets;
    }

    method Stamp(b: nat, write: bool)
      requires assoc > 0 && b + assoc <= content.Length
      modifies content, this`maxOrder
      ensures maxOrder == old(maxOrder) + 1
      ensures var s := old(content[b..b + assoc]);
        content[b..b + assoc] == s[0 := s[0].(order := old(maxOrder), st := write || s[0].st)]
      ensures forall i :: 0 <= i < content.Length && !(b <= i < b + assoc) ==> content[i] == old(content[i])
    {
      content[b] := content[b].(order := maxOrder);
      if write { content[b] := content[b].(st := true); }
      maxOrder := maxOrder + 1;
    }
  }

  // A set has a line with a tag exactly if the tag is resident.
  lemma SetHolds(c: seq<Line>, evs: seq<Touch>, sets: nat, assoc: nat, k: nat, t: nat)
    requires sets > 0 && k < sets && SetsOk(c, evs, sets, assoc) && Tagged(evs) && t != 0
    ensures k * assoc + assoc <= |c|
    ensures t in Resident(evs, sets, assoc, k) <==> HasTag(c[k * assoc..k * assoc + assoc], t)
  {
    hide Resident, SetOf;
    assert InSet(c, k, assoc);
    var lines, r := c[k * assoc..k * assoc + assoc], Resident(evs, sets, assoc, k);
    assert SetOk(SetSlice(c, k, assoc), evs, sets, assoc, k);
    forall w | 0 <= w < assoc ensures lines[w].tag == if w < |r| then r[w] else 0 {
      SetTags(lines, evs, sets, assoc, k, w);
    }
    if t in r {
      var w :| 0 <= w < |r| && r[w] == t;
      assert lines[w].tag == t;
    }
  }
}