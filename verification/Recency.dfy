// What an exact least-recently-used cache holds after a trace of accesses: the reference that
// the move-to-front sets of LiveCache are compared with.
module Recency {
  import opened Powers

  datatype Touch = Touch(tag: nat, write: bool)

  // One cache line: its tag, the stamp of its last access, and whether it was written since filled.
  datatype Line = Line(tag: nat, order: nat, st: bool)

  function SetOf(tag: nat, sets: nat): nat
    requires sets > 0
  {
    tag % sets
  }

  // t and u are a whole number of strides of n apart.
  ghost predicate Strides(t: nat, u: nat, n: nat) { exists d: int :: t - u == n * d }

  /** With a power of two sets the set of a tag is its low bits: two tags share a set exactly if they
      differ by a multiple of the number of sets, and neighbouring tags never do. */
  lemma SetsInterleave(tag: nat, other: nat, b: nat)
    ensures tag == P2(b) * (tag / P2(b)) + SetOf(tag, P2(b))
    ensures SetOf(tag, P2(b)) < P2(b) && (tag < P2(b) ==> SetOf(tag, P2(b)) == tag)
    ensures SetOf(tag, P2(b)) == SetOf(other, P2(b)) <==> Strides(tag, other, P2(b))
    ensures b > 0 ==> SetOf(tag + 1, P2(b)) != SetOf(tag, P2(b))
  {
    hide P2, Strides, SetOf;
    SameSet(tag, other, P2(b));
    LowPart(tag, P2(b));
    if b > 0 {
      P2Mono(1, b);
      P2Small();
      SameSet(tag + 1, tag, P2(b));
      NeighboursApart(tag, P2(b));
    }
  }

  lemma LowPart(t: nat, n: pos)
    ensures t == n * (t / n) + SetOf(t, n) && SetOf(t, n) < n && (t < n ==> SetOf(t, n) == t)
  {
    DivMod(t, n);
    if t < n { DivUnique(t, n, 0, t); }
  }

  lemma NeighboursApart(t: nat, n: pos)
    requires n > 1
    ensures !Strides(t + 1, t, n)
  {
    forall d: int ensures t + 1 - t != n * d {
      if d > 0 { MulMono(1, d, n); } else if d < 0 { MulMono(0, -d, n); }
    }
  }

  lemma SameSet(t: nat, u: nat, n: pos)
    ensures SetOf(t, n) == SetOf(u, n) <==> Strides(t, u, n)
  {
    DivMod(t, n);
    DivMod(u, n);
    if SetOf(t, n) == SetOf(u, n) {
      Distribute(t / n, -(u / n), n);
      assert t - u == n * (t / n - u / n);
    }
    if Strides(t, u, n) {
      var d: int :| t - u == n * d;
      Shifted(t, u, n, d);
    }
  }

  lemma Shifted(t: nat, u: nat, n: pos, d: int)
    requires t - u == n * d
    ensures SetOf(t, n) == SetOf(u, n)
  {
    DivMod(u, n);
    Distribute(u / n, d, n);
    var q := u / n + d;
    if q < 0 { MulMono(1, -q, n); }
    DivUnique(t, n, q, u % n);
  }

  predicate Touched(evs: seq<Touch>, t: nat) { exists i :: 0 <= i < |evs| && evs[i].tag == t }

  // The position of the latest access to t.
  function LastTouch(evs: seq<Touch>, t: nat): (i: nat)
    requires Touched(evs, t)
    ensures i < |evs| && evs[i].tag == t
    ensures forall j :: i < j < |evs| ==> evs[j].tag != t
  {
    if evs[|evs| - 1].tag == t then |evs| - 1
    else
      assert Touched(evs[..|evs| - 1], t) by {
        var i :| 0 <= i < |evs| && evs[i].tag == t;
        assert evs[..|evs| - 1][i].tag == t;
      }
      LastTouch(evs[..|evs| - 1], t)
  }

  function Without(ts: seq<nat>, t: nat): (r: seq<nat>)
    ensures t !in r && |r| <= |ts|
    ensures forall u :: u in r <==> u in ts && u != t
  {
    if ts == [] then [] else if ts[0] == t then Without(ts[1..], t) else [ts[0]] + Without(ts[1..], t)
  }

  // Every tag of set k that was accessed, most recent first.
  function ByRecency(evs: seq<Touch>, sets: nat, k: nat): seq<nat>
    requires sets > 0
  {
    if evs == [] then []
    else
      var r, t := ByRecency(evs[..|evs| - 1], sets, k), evs[|evs| - 1].tag;
      if SetOf(t, sets) == k then [t] + Without(r, t) else r
  }

  function Take<T>(s: seq<T>, n: nat): seq<T> { if |s| <= n then s else s[..n] }

  // The last `assoc` distinct tags of set k: what it should hold.
  function Resident(evs: seq<Touch>, sets: nat, assoc: nat, k: nat): (r: seq<nat>)
    requires sets > 0
    ensures |r| <= assoc
  {
    Take(ByRecency(evs, sets, k), assoc)
  }

  // Whether t was written since it last became resident.
  function Written(evs: seq<Touch>, sets: nat, assoc: nat, t: nat): bool
    requires sets > 0
  {
    evs != [] &&
    var pre, ev := evs[..|evs| - 1], evs[|evs| - 1];
    if ev.tag != t then Written(pre, sets, assoc, t)
    else ev.write || (t in Resident(pre, sets, assoc, SetOf(t, sets)) && Written(pre, sets, assoc, t))
  }

  // ----- the recency list is what its name says -----

  lemma {:induction false} RecencyTouched(evs: seq<Touch>, sets: nat, k: nat, t: nat)
    requires sets > 0
    ensures t in ByRecency(evs, sets, k) <==> SetOf(t, sets) == k && Touched(evs, t)
  {
    if evs != [] {
      var pre, ev := evs[..|evs| - 1], evs[|evs| - 1];
      RecencyTouched(pre, sets, k, t);
      assert Touched(evs, t) <==> ev.tag == t || Touched(pre, t) by { TouchedStep(evs, t); }
    }
  }

  lemma TouchedStep(evs: seq<Touch>, t: nat)
    requires evs != []
    ensures Touched(evs, t) <==> evs[|evs| - 1].tag == t || Touched(evs[..|evs| - 1], t)
  {
    var pre := evs[..|evs| - 1];
    if Touched(pre, t) { var i :| 0 <= i < |pre| && pre[i].tag == t; assert evs[i].tag == t; }
    if Touched(evs, t) && evs[|evs| - 1].tag != t {
      var i :| 0 <= i < |evs| && evs[i].tag == t;
      assert pre[i].tag == t;
    }
  }

  ghost predicate Descending(evs: seq<Touch>, ts: seq<nat>) {
    && (forall i :: 0 <= i < |ts| ==> Touched(evs, ts[i]))
    && (forall i, j :: 0 <= i < j < |ts| ==> LastTouch(evs, ts[i]) > LastTouch(evs, ts[j]))
  }

  lemma {:induction false} WithoutDescending(evs: seq<Touch>, ts: seq<nat>, t: nat)
    requires Descending(evs, ts)
    ensures Descending(evs, Without(ts, t))
  {
    if ts != [] {
      var r := Without(ts[1..], t);
      WithoutDescending(evs, ts[1..], t);
      forall j | 0 <= j < |r| ensures Touched(evs, r[j]) && LastTouch(evs, ts[0]) > LastTouch(evs, r[j]) {
        assert r[j] in ts[1..];
        var i :| 0 <= i < |ts[1..]| && ts[1..][i] == r[j];
        assert ts[i + 1] == r[j];
      }
    }
  }

  /** The list is ordered by last access, the latest first. */
  lemma {:induction false} RecencyDescends(evs: seq<Touch>, sets: nat, k: nat)
    requires sets > 0
    ensures Descending(evs, ByRecency(evs, sets, k))
  {
    if evs != [] {
      var pre, t := evs[..|evs| - 1], evs[|evs| - 1].tag;
      RecencyDescends(pre, sets, k);
      var r := ByRecency(pre, sets, k);
      WithoutDescending(pre, r, t);
      var w := if SetOf(t, sets) == k then Without(r, t) else r;
      RecencyTouched(pre, sets, k, t);
      assert t !in w;
      forall i | 0 <= i < |w| ensures Touched(evs, w[i]) && LastTouch(evs, w[i]) == LastTouch(pre, w[i]) {
        assert w[i] in w;
        TouchedStep(evs, w[i]);
      }
      TouchedStep(evs, t);
    }
  }

  // Different tags were last accessed at different times.
  lemma LastTouchDistinct(evs: seq<Touch>, t: nat, u: nat)
    requires Touched(evs, t) && Touched(evs, u) && t != u
    ensures LastTouch(evs, t) != LastTouch(evs, u)
  {}

  lemma {:induction false} WithoutAbsent(ts: seq<nat>, t: nat)
    requires t !in ts
    ensures Without(ts, t) == ts
  {
    if ts != [] { WithoutAbsent(ts[1..], t); }
  }

  lemma {:induction false} WithoutAt(ts: seq<nat>, j: nat)
    requires j < |ts| && forall a, b :: 0 <= a < b < |ts| ==> ts[a] != ts[b]
    ensures Without(ts, ts[j]) == ts[..j] + ts[j + 1..]
  {
    if j == 0 {
      WithoutAbsent(ts[1..], ts[0]);
    } else {
      WithoutAt(ts[1..], j - 1);
      assert ts[1..][..j - 1] == ts[1..j] && ts[1..][j..] == ts[j + 1..];
      assert [ts[0]] + ts[1..j] == ts[..j];
    }
  }

  lemma RecencyDistinct(evs: seq<Touch>, sets: nat, k: nat)
    requires sets > 0
    ensures forall a, b :: 0 <= a < b < |ByRecency(evs, sets, k)| ==>
            ByRecency(evs, sets, k)[a] != ByRecency(evs, sets, k)[b]
  {
    RecencyDescends(evs, sets, k);
  }

  // Without among the first n: either t is there and leaves, or the prefix does not change.
  lemma {:induction false} WithoutPrefix(ts: seq<nat>, t: nat, n: nat)
    requires n <= |ts| && t !in ts[..n]
    ensures |Without(ts, t)| >= n && Without(ts, t)[..n] == ts[..n]
  {
    if n > 0 {
      assert ts[..n][0] == ts[0] && ts[1..][..n - 1] == ts[..n][1..];
      WithoutPrefix(ts[1..], t, n - 1);
    }
  }
}
