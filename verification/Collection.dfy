/** Collecting the measurements of several clocks until all have answered or the time is
    up (core/client/client.go), and combining them (core/sync/sync.go). */
module Collection {
  import opened GoInt
  import opened Measurements
  import opened Sorting

  // The measurements that did not fail, in the order of arrival.
  ghost function Successes(s: seq<Measurement>): seq<Measurement> {
    if s == [] then []
    else Successes(s[..|s| - 1]) + (if s[|s| - 1].failed then [] else [s[|s| - 1]])
  }

  lemma {:induction false} SuccessesFit(s: seq<Measurement>)
    ensures |Successes(s)| <= |s|
  {
    if s != [] {
      SuccessesFit(s[..|s| - 1]);
    }
  }

  // g are the measurements that did not fail, at increasing positions p; none is left out.
  ghost predicate ArePicked(g: seq<Measurement>, p: seq<int>, s: seq<Measurement>) {
    && |g| == |p|
    && (forall j :: 0 <= j < |p| ==> 0 <= p[j] < |s| && g[j] == s[p[j]] && !g[j].failed)
    && (forall j, k :: 0 <= j < k < |p| ==> p[j] < p[k])
    && (forall i :: 0 <= i < |s| && !s[i].failed ==> i in p)
  }

  lemma {:induction false} SuccessesAre(s: seq<Measurement>) returns (p: seq<int>)
    ensures ArePicked(Successes(s), p, s)
  {
    hide ArePicked;
    if s == [] {
      p := [];
      NonePicked();
    } else {
      var t, m := s[..|s| - 1], s[|s| - 1];
      assert s == t + [m];
      var q := SuccessesAre(t);
      OneMorePicked(Successes(t), q, t, m);
      p := if m.failed then q else q + [|t|];
      assert m.failed ==> Successes(s) == Successes(t);
    }
  }

  lemma NonePicked()
    ensures ArePicked([], [], [])
  {
  }

  lemma OneMorePicked(g: seq<Measurement>, q: seq<int>, t: seq<Measurement>, m: Measurement)
    requires ArePicked(g, q, t)
    ensures if m.failed then ArePicked(g, q, t + [m]) else ArePicked(g + [m], q + [|t|], t + [m])
  {
    var p, s := q + [|t|], t + [m];
    assert forall i :: i in q ==> i in p;
    assert p[|q|] == |t|;
    assert forall i :: 0 <= i < |t| ==> s[i] == t[i];
  }

  // Every one of |ms| clocks answers once, in the order of arrivals; stop is the number
  // of answers after which the wait is cancelled, if there are so many. The others are
  // drained in the background.
  method CollectMeasurements(ms: array<Measurement>, arrivals: seq<Measurement>, stop: nat, now: int)
    returns (collected: nat, drained: nat)
    requires |arrivals| == ms.Length
    modifies ms
    ensures var received := if stop < |arrivals| then stop else |arrivals|;
      var good := Successes(arrivals[..received]);
      && |good| <= ms.Length
      && ms[..|good|] == good
      && (forall k :: |good| <= k < ms.Length ==> ms[k] == Measurement(now, 0, false))
      && received + drained == ms.Length
    ensures collected == ms.Length
  {
    var i, j, n := 0, 0, ms.Length;
    while i != n
      invariant 0 <= j <= i <= n && i <= stop
      invariant ms[..j] == Successes(arrivals[..i])
    {
      assert arrivals[..i + 1][..i] == arrivals[..i];
      if i == stop {
        break;
      }
      if !arrivals[i].failed {
        if j != ms.Length {
          ms[j] := arrivals[i];
          j := j + 1;
        }
      }
      i := i + 1;
    }
    ghost var good := ms[..j];
    while j != ms.Length
      invariant |good| <= j <= ms.Length && ms[..|good|] == good
      invariant forall k :: |good| <= k < j ==> ms[k] == Measurement(now, 0, false)
    {
      ms[j] := Measurement(now, 0, false);
      j := j + 1;
    }
    collected, drained := j, n - i;
  }

  // The received answers that did not fail and lie between a and b.
  ghost function Correct(s: seq<Measurement>, a: int, b: int): set<int> {
    set i | 0 <= i < |s| && !s[i].failed && a <= s[i].offset <= b
  }

  ghost function Within(s: seq<Measurement>, a: int, b: int): set<int> {
    set i | 0 <= i < |s| && a <= s[i].offset <= b
  }

  lemma WithinAppended(g: seq<Measurement>, m: Measurement, a: int, b: int)
    ensures |Within(g + [m], a, b)| == |Within(g, a, b)| + (if a <= m.offset <= b then 1 else 0)
  {
    if a <= m.offset <= b {
      assert Within(g + [m], a, b) == Within(g, a, b) + {|g|};
    } else {
      assert Within(g + [m], a, b) == Within(g, a, b);
    }
  }

  lemma CorrectAppended(t: seq<Measurement>, m: Measurement, a: int, b: int)
    ensures |Correct(t + [m], a, b)| == |Correct(t, a, b)| + (if !m.failed && a <= m.offset <= b then 1 else 0)
  {
    if !m.failed && a <= m.offset <= b {
      assert Correct(t + [m], a, b) == Correct(t, a, b) + {|t|};
    } else {
      assert Correct(t + [m], a, b) == Correct(t, a, b);
    }
  }

  // Collecting neither loses nor repeats a correct answer.
  lemma {:induction false} CorrectAreKept(s: seq<Measurement>, a: int, b: int)
    ensures |Within(Successes(s), a, b)| == |Correct(s, a, b)|
  {
    if s != [] {
      var t, m := s[..|s| - 1], s[|s| - 1];
      assert s == t + [m];
      CorrectAreKept(t, a, b);
      CorrectAppended(t, m, a, b);
      WithinAppended(Successes(t), m, a, b);
      assert m.failed ==> Successes(s) == Successes(t);
    }
  }

  ghost function Received(arrivals: seq<Measurement>, stop: nat): seq<Measurement> {
    arrivals[..if stop < |arrivals| then stop else |arrivals|]
  }

  // All but at most MaxFaults clocks are correct, with offsets from a to b, and answered in
  // time and without failure.
  ghost predicate MostlyCorrect(arrivals: seq<Measurement>, stop: nat, a: int, b: int) {
    |arrivals| > 0 && |Correct(Received(arrivals, stop), a, b)| >= |arrivals| - MaxFaults(|arrivals|)
  }

  // The offset is in the range of the correct ones, wherever that is.
  ghost predicate IsValidOffset(offset: Duration, arrivals: seq<Measurement>, stop: nat) {
    forall a: Duration, b: Duration :: MostlyCorrect(arrivals, stop, a, b) && IsInt64(b - a) ==> a <= offset <= b
  }

  // The measurements that are combined: the successes received in time, and zero offsets for
  // all other clocks.
  ghost function Collected(arrivals: seq<Measurement>, stop: nat, now: int): (r: seq<Measurement>)
    ensures |r| == |arrivals| && Successes(Received(arrivals, stop)) <= r
  {
    var good := Successes(Received(arrivals, stop));
    SuccessesFit(Received(arrivals, stop));
    good + seq(|arrivals| - |good|, _ => Measurement(now, 0, false))
  }

  // The offset is half way between the f-th smallest and the f-th greatest of them.
  ghost predicate IsCombinedOffset(offset: Duration, arrivals: seq<Measurement>, stop: nat, now: int)
    requires |arrivals| > 0
  {
    var s, f := Collected(arrivals, stop, now), MaxFaults(|arrivals|);
    exists lo: Duration, hi: Duration ::
      IsKth(Offsets(s), f, lo) && IsKth(Offsets(s), |s| - 1 - f, hi) && offset == MidOffset(lo, hi)
  }

  lemma CollectedIsValid(m: Measurement, ms: seq<Measurement>, arrivals: seq<Measurement>, stop: nat,
                         a: Duration, b: Duration)
    requires |ms| == |arrivals| > 0 && IsMidOf(m, ms, MaxFaults(|ms|), |ms| - 1 - MaxFaults(|ms|))
    requires Successes(Received(arrivals, stop)) <= ms
    requires MostlyCorrect(arrivals, stop, a, b) && IsInt64(b - a)
    ensures a <= m.offset <= b
  {
    var good := Successes(Received(arrivals, stop));
    CorrectAreKept(Received(arrivals, stop), a, b);
    assert forall i :: i in Within(good, a, b) ==> ms[i] == good[i];
    FtmIsValid(m, ms, Within(good, a, b), a, b);
  }

  // One measurement of several clocks: measureOffsetToRefClks.
  method MeasureOffset(ms: array<Measurement>, arrivals: seq<Measurement>, stop: nat, now: int)
    returns (m: Measurement)
    requires |arrivals| == ms.Length > 0
    modifies ms
    ensures IsMidOf(m, Collected(arrivals, stop, now), MaxFaults(ms.Length), ms.Length - 1 - MaxFaults(ms.Length))
    ensures IsCombinedOffset(m.offset, arrivals, stop, now)
    ensures IsValidOffset(m.offset, arrivals, stop)
  {
    hide IsMidOf, IsCombinedOffset, IsValidOffset, Successes, MaxFaults;
    var n, d := CollectMeasurements(ms, arrivals, stop, now);
    assert ms[..] == Collected(arrivals, stop, now);
    m := FaultTolerantMidpoint(ms);
    MidpointIsValid(m, arrivals, stop, now);
  }

  lemma MidpointIsValid(m: Measurement, arrivals: seq<Measurement>, stop: nat, now: int)
    requires |arrivals| > 0
    requires var s, f := Collected(arrivals, stop, now), MaxFaults(|arrivals|);
      IsMidOf(m, s, f, |s| - 1 - f)
    ensures IsCombinedOffset(m.offset, arrivals, stop, now) && IsValidOffset(m.offset, arrivals, stop)
  {
    hide IsMidOf, Collected, Successes, Received, MostlyCorrect;
    var s := Collected(arrivals, stop, now);
    var lo, hi := PairOf(m, s);
    forall a: Duration, b: Duration | MostlyCorrect(arrivals, stop, a, b) && IsInt64(b - a)
      ensures a <= m.offset <= b
    {
      CollectedIsValid(m, s, arrivals, stop, a, b);
    }
  }
}
