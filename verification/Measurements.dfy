/** Combining clock measurements: median and fault-tolerant midpoint
    (core/measurements/measurement.go), and what the latter promises when some of the
    clocks are faulty. */
module Measurements {
  import opened GoInt
  import opened Sorting

  datatype Measurement = Measurement(timestamp: int, offset: Duration, failed: bool)

  // The offset half way from x to y, computed in 64 bits.
  function MidOffset(x: Duration, y: Duration): Duration {
    Wrap64(x + Quo(Wrap64(y - x), 2))
  }

  function MidTime(t: int, u: int): int {
    if t <= u then t + Quo(Sub(u, t), 2) else u + Quo(Sub(t, u), 2)
  }

  function Midpoint(x: Measurement, y: Measurement): Measurement {
    Measurement(MidTime(x.timestamp, y.timestamp), MidOffset(x.offset, y.offset), false)
  }

  ghost function Offsets(ms: seq<Measurement>): seq<int> {
    KeysOf(ms, (m: Measurement) => m.offset)
  }

  // m is the midpoint of two of the measurements, whose offsets are the j-th and the
  // k-th smallest ones.
  ghost predicate IsMidOf(m: Measurement, ms: seq<Measurement>, j: int, k: int) {
    exists x, y :: IsMidOfPair(m, ms, j, k, x, y)
  }

  ghost predicate IsMidOfPair(m: Measurement, ms: seq<Measurement>, j: int, k: int, x: Measurement, y: Measurement) {
    && x in ms && y in ms && m == Midpoint(x, y)
    && IsKth(Offsets(ms), j, x.offset) && IsKth(Offsets(ms), k, y.offset)
  }

  // The number of faulty clocks that n clocks tolerate.
  function MaxFaults(n: int): (f: int)
    requires n > 0
    ensures 3 * f < n <= 3 * f + 3
  {
    (n - 1) / 3
  }

  method SortByOffset(ms: array<Measurement>)
    modifies ms
    ensures |ms[..]| == |old(ms[..])|
    ensures forall k :: 0 <= k < ms.Length ==>
              ms[k] in old(ms[..]) && IsKth(Offsets(old(ms[..])), k, ms[k].offset)
  {
    ghost var s := ms[..];
    ghost var p := Sort(ms, (m: Measurement) => m.offset);
    forall k | 0 <= k < ms.Length ensures ms[k] in s && IsKth(Offsets(s), k, ms[k].offset) {
      SortedHasKth(s, (m: Measurement) => m.offset, p, ms[..], k);
    }
  }

  method Median(ms: array<Measurement>) returns (m: Measurement)
    requires ms.Length > 0
    modifies ms
    ensures var n := ms.Length;
      if n % 2 != 0
      then exists x :: x in old(ms[..]) && m == x.(failed := false) && IsKth(Offsets(old(ms[..])), n / 2, x.offset)
      else IsMidOf(m, old(ms[..]), n / 2 - 1, n / 2)
    ensures !m.failed
  {
    var n := ms.Length;
    SortByOffset(ms);
    var i := n / 2;
    if n % 2 != 0 {
      return ms[i].(failed := false);
    }
    m := Midpoint(ms[i - 1], ms[i]);
    assert IsMidOfPair(m, old(ms[..]), i - 1, i, ms[i - 1], ms[i]);
  }

  method FaultTolerantMidpoint(ms: array<Measurement>) returns (m: Measurement)
    requires ms.Length > 0
    modifies ms
    ensures var n := ms.Length;
      IsMidOf(m, old(ms[..]), MaxFaults(n), n - 1 - MaxFaults(n))
    ensures !m.failed
  {
    var n := ms.Length;
    SortByOffset(ms);
    var f := MaxFaults(n);
    m := Midpoint(ms[f], ms[n - 1 - f]);
    assert IsMidOfPair(m, old(ms[..]), f, n - 1 - f, ms[f], ms[n - 1 - f]);
  }

  /* ---- The midpoint of two measurements ---- */

  lemma MidpointIs(x: Measurement, y: Measurement)
    ensures var m := Midpoint(x, y);
      && !m.failed && m.timestamp == MidTime(x.timestamp, y.timestamp) && m.offset == MidOffset(x.offset, y.offset)
  {
  }

  // The midpoint of two times is half way between them, rounded toward the earlier one, if
  // their distance is an int64; otherwise half of the largest one after the earlier time.
  lemma MidTimeIsHalfWay(t: int, u: int)
    ensures var a, b := if t <= u then t else u, if t <= u then u else t;
      && a <= MidTime(t, u) <= b
      && MidTime(t, u) - a == (if b - a <= MAX_INT64 then b - a else MAX_INT64) / 2
  {
  }

  // The midpoint lies between the two exactly if their distance is an int64, or is as
  // large as any two int64 can be apart.
  lemma MidOffsetBetween(x: Duration, y: Duration)
    requires x <= y
    ensures x <= MidOffset(x, y) <= y <==> IsInt64(y - x) || y - x == MAX_INT64 - MIN_INT64
    ensures IsInt64(y - x) ==> MidOffset(x, y) == x + (y - x) / 2
  {
    var d := y - x;
    assert IsInt64(x) && IsInt64(y);
    if !IsInt64(d) {
      assert MAX_INT64 < d <= MAX_INT64 - MIN_INT64;
      assert Wrap64(d) == d - 0x1_0000_0000_0000_0000;
      var q := (0x1_0000_0000_0000_0000 - d) / 2;
      assert MidOffset(x, y) == Wrap64(x - q);
      if !IsInt64(x - q) {
        assert Wrap64(x - q) == x - q + 0x1_0000_0000_0000_0000;
      }
    }
  }

  /* ---- Faulty clocks ---- */

  // The offsets at the positions in good lie between a and b, and all but at most
  // MaxFaults positions are good.
  ghost predicate MostlyWithin(u: seq<int>, good: set<int>, a: int, b: int) {
    && |u| > 0
    && (forall i :: i in good ==> 0 <= i < |u| && a <= u[i] <= b)
    && |good| >= |u| - MaxFaults(|u|)
  }

  // The two offsets that the fault-tolerant midpoint averages.
  ghost predicate IsFtmPair(u: seq<int>, lo: int, hi: int) {
    && |u| > 0
    && IsKth(u, MaxFaults(|u|), lo)
    && IsKth(u, |u| - 1 - MaxFaults(|u|), hi)
  }

  lemma WithinRange(u: seq<int>, x: int)
    ensures AtMost(u, x) <= Range(|u|) && Below(u, x) <= AtMost(u, x)
  {
  }

  lemma DisjointSizes(a: set<int>, b: set<int>, n: nat)
    requires a <= Range(n) && b <= Range(n) && a !! b
    ensures |a| + |b| <= n
  {
    assert |a + b| == |a| + |b|;
    SubsetSize(a + b, Range(n));
  }

  // Dropping the f least and the f greatest offsets leaves only offsets that correct
  // clocks could have reported.
  lemma FtmPairWithin(u: seq<int>, good: set<int>, a: int, b: int, lo: int, hi: int)
    requires MostlyWithin(u, good, a, b) && IsFtmPair(u, lo, hi)
    ensures a <= lo <= hi <= b
  {
    var n, f := |u|, MaxFaults(|u|);
    if lo < a {
      WithinRange(u, lo);
      DisjointSizes(AtMost(u, lo), good, n);
    }
    if hi < lo {
      SubsetSize(AtMost(u, hi), Below(u, lo));
    }
    if b < hi {
      SubsetSize(good, Below(u, hi));
    }
  }

  // The two offsets that a fault-tolerant midpoint averages.
  lemma PairOf(m: Measurement, ms: seq<Measurement>) returns (lo: Duration, hi: Duration)
    requires |ms| > 0 && IsMidOf(m, ms, MaxFaults(|ms|), |ms| - 1 - MaxFaults(|ms|))
    ensures IsFtmPair(Offsets(ms), lo, hi) && m.offset == MidOffset(lo, hi)
  {
    var x, y :| IsMidOfPair(m, ms, MaxFaults(|ms|), |ms| - 1 - MaxFaults(|ms|), x, y);
    lo, hi := x.offset, y.offset;
  }

  // Validity: with at most MaxFaults faulty clocks, the fault-tolerant midpoint lies in
  // the range of the correct offsets, whatever the faulty clocks report.
  lemma FtmIsValid(m: Measurement, ms: seq<Measurement>, good: set<int>, a: Duration, b: Duration)
    requires |ms| > 0 && IsMidOf(m, ms, MaxFaults(|ms|), |ms| - 1 - MaxFaults(|ms|))
    requires MostlyWithin(Offsets(ms), good, a, b) && IsInt64(b - a)
    ensures a <= m.offset <= b
  {
    var lo, hi := PairOf(m, ms);
    FtmPairWithin(Offsets(ms), good, a, b, lo, hi);
    MidOffsetBetween(lo, hi);
  }

  // What two nodes drop overlaps so little that the range kept by one always reaches the
  // range kept by the other.
  lemma FtmPairsOverlap(u: seq<int>, v: seq<int>, same: set<int>, lo: int, hi: int, lo': int, hi': int)
    requires |u| == |v| && IsFtmPair(u, lo, hi) && IsFtmPair(v, lo', hi')
    requires same <= Range(|u|) && |same| >= |u| - MaxFaults(|u|)
    requires forall i :: i in same ==> u[i] == v[i]
    ensures lo <= hi'
  {
    var n := |u|;
    if hi' < lo {
      WithinRange(v, hi');
      forall i | i in AtMost(v, hi') ensures i !in same || i in Below(u, lo) {
      }
      DisjointSizes(AtMost(v, hi') - Below(u, lo), same, n);
    }
  }

  lemma HalfApart(a: int, b: int, lo: int, hi: int, lo': int, hi': int)
    requires a <= lo <= hi <= b && a <= lo' <= hi' <= b && lo <= hi'
    ensures (lo + (hi - lo) / 2) - (lo' + (hi' - lo') / 2) <= (b - a + 1) / 2
  {
    assert (lo + (hi - lo) / 2) == (lo + hi) / 2;
    assert (lo' + (hi' - lo') / 2) == (lo' + hi') / 2;
  }

  lemma PairsHalve(u: seq<int>, v: seq<int>, same: set<int>, a: Duration, b: Duration,
                   lo: Duration, hi: Duration, lo': Duration, hi': Duration)
    requires |u| == |v| && IsFtmPair(u, lo, hi) && IsFtmPair(v, lo', hi')
    requires MostlyWithin(u, same, a, b) && IsInt64(b - a)
    requires forall i :: i in same ==> u[i] == v[i]
    ensures a <= MidOffset(lo, hi) <= b && a <= MidOffset(lo', hi') <= b
    ensures MidOffset(lo, hi) - MidOffset(lo', hi') <= (b - a + 1) / 2
  {
    FtmPairWithin(u, same, a, b, lo, hi);
    FtmPairWithin(v, same, a, b, lo', hi');
    assert forall i :: i in same ==> i in Range(|u|);
    FtmPairsOverlap(u, v, same, lo, hi, lo', hi');
    MidOffsetBetween(lo, hi);
    MidOffsetBetween(lo', hi');
    HalfApart(a, b, lo, hi, lo', hi');
  }

  // Halving: if two nodes measured the same offsets, within a range from a to b, except
  // for at most MaxFaults clocks that may have told them anything, then both
  // fault-tolerant midpoints lie in the range, at most half of its width apart.
  lemma FtmHalves(m: Measurement, ms: seq<Measurement>, m': Measurement, ms': seq<Measurement>,
                  same: set<int>, a: Duration, b: Duration)
    requires |ms| == |ms'| > 0
    requires IsMidOf(m, ms, MaxFaults(|ms|), |ms| - 1 - MaxFaults(|ms|))
    requires IsMidOf(m', ms', MaxFaults(|ms|), |ms| - 1 - MaxFaults(|ms|))
    requires MostlyWithin(Offsets(ms), same, a, b) && IsInt64(b - a)
    requires forall i :: i in same ==> ms[i].offset == ms'[i].offset
    ensures a <= m.offset <= b && a <= m'.offset <= b
    ensures Abs(m.offset - m'.offset) <= (b - a + 1) / 2
  {
    var lo, hi := PairOf(m, ms);
    var lo', hi' := PairOf(m', ms');
    assert forall i :: i in same ==> Offsets(ms)[i] == Offsets(ms')[i];
    assert MostlyWithin(Offsets(ms'), same, a, b);
    PairsHalve(Offsets(ms), Offsets(ms'), same, a, b, lo, hi, lo', hi');
    PairsHalve(Offsets(ms'), Offsets(ms), same, a, b, lo', hi', lo, hi);
  }
}
