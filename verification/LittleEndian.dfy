// Words as little-endian byte sequences.
module LittleEndian {
  import opened Powers

  function Load(bs: seq<int>): (w: int)
    ensures (forall i :: 0 <= i < |bs| ==> bs[i] >= 0) ==> w >= 0
  {
    if bs == [] then 0 else bs[0] + 256 * Load(bs[1..])
  }

  function Store(x: int, n: nat): (bs: seq<int>)
    ensures |bs| == n && forall i :: 0 <= i < n ==> 0 <= bs[i] < 256
    decreases n
  {
    if n == 0 then [] else [x % 256] + Store(x / 256, n - 1)
  }

  function Base(n: nat): (b: nat)
    ensures b >= 1
  {
    if n == 0 then 1 else 256 * Base(n - 1)
  }

  /** The lowest byte comes first. */
  lemma Eight(bs: seq<int>)
    requires |bs| == 8
    ensures Load(bs) == Four(bs[..4]) + 0x1_0000_0000 * Four(bs[4..])
  {
    var t := bs[4..];
    LoadFour(t);
    FourMore(bs);
  }

  function Four(bs: seq<int>): int
    requires |bs| == 4
  {
    bs[0] + 0x100 * bs[1] + 0x1_0000 * bs[2] + 0x100_0000 * bs[3]
  }

  lemma LoadFour(bs: seq<int>)
    requires |bs| == 4
    ensures Load(bs) == Four(bs)
  {
    FourMore(bs);
  }

  lemma FourMore(bs: seq<int>)
    requires |bs| >= 4
    ensures Load(bs) == Four(bs[..4]) + 0x1_0000_0000 * Load(bs[4..])
  {
    var a, b, c, d := bs[1..], bs[2..], bs[3..], bs[4..];
    assert a[1..] == b && b[1..] == c && c[1..] == d;
    assert Load(bs) == bs[0] + 256 * Load(a);
    assert Load(a) == a[0] + 256 * Load(b);
    assert Load(b) == b[0] + 256 * Load(c);
    assert Load(c) == c[0] + 256 * Load(d);
  }

  /** A word stored in n bytes and loaded again is the word modulo 256^n. */
  lemma {:induction false} RoundTrip(x: nat, n: nat)
    ensures Load(Store(x, n)) == x % Base(n)
    decreases n
  {
    if n > 0 {
      var bs := Store(x, n);
      assert bs[0] == x % 256 && bs[1..] == Store(x / 256, n - 1);
      RoundTrip(x / 256, n - 1);
      DivDiv(x, 256, Base(n - 1));
    }
  }
}
