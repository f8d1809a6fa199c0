/** The lucky packet filter (core/client/filter_flash.go): the median offset of the
    measurements with the least round-trip delays in a sliding window. */
module LuckyFilters {
  import opened GoInt
  import opened Sorting
  import opened Measurements
  import opened NtpTime

  /* ---- Offset and delay (net/ntp/ntp.go) ---- */

  // The four timestamps of an exchange: request sent, received, response sent, received.
  datatype Exchange = Exchange(t0: int, t1: int, t2: int, t3: int)

  function ClockOffset(e: Exchange): Duration {
    Quo(Wrap64(Sub(e.t1, e.t0) + Sub(e.t2, e.t3)), 2)
  }

  function RoundTripDelay(e: Exchange): Duration {
    Wrap64(Sub(e.t3, e.t0) - Sub(e.t2, e.t1))
  }

  // The stamps of an exchange of a client with a server that is ahead by theta, over paths
  // with delays out and back, and without arithmetic overflow. Delays are not negative, but
  // may be measured too small by slack.
  ghost predicate Honest(e: Exchange, theta: int, out: int, back: int, slack: nat) {
    && out + slack >= 0 && back + slack >= 0
    && e.t1 == e.t0 + theta + out
    && e.t3 == e.t2 - theta + back
    && NoOverflow(e) && IsInt64(out + back)
  }

  ghost predicate NoOverflow(e: Exchange) {
    && IsInt64(e.t1 - e.t0) && IsInt64(e.t2 - e.t3) && IsInt64(e.t1 - e.t0 + e.t2 - e.t3)
    && IsInt64(e.t3 - e.t0) && IsInt64(e.t2 - e.t1)
  }

  // Twice the error of offset x is at most r, but for rounding toward zero.
  ghost predicate IsNear(x: int, theta: int, r: int) {
    && -r - 1 <= 2 * (x - theta) <= r + 1
    && (x > 0 ==> 2 * (x - theta) <= r)
    && (x < 0 ==> -r <= 2 * (x - theta))
  }

  // The delay is measured exactly. The offset is wrong by at most half of it and the slack,
  // and by rounding toward zero.
  lemma OffsetError(e: Exchange, theta: int, out: int, back: int, slack: nat)
    requires Honest(e, theta, out, back, slack)
    ensures RoundTripDelay(e) == out + back
    ensures IsNear(ClockOffset(e), theta, out + back + 2 * slack)
  {
    assert Sub(e.t3, e.t0) - Sub(e.t2, e.t1) == out + back;
    assert Sub(e.t1, e.t0) + Sub(e.t2, e.t3) == 2 * theta + out - back;
  }

  // A stamp as the client has it: its own one, or one that was converted to an NTP timestamp
  // and back, in the same half era as the reference time.
  ghost predicate IsStampOf(u: int, t: int, ref: int) {
    || u == t
    || (&& u == TimeFromTime64(Time64FromTime(t), ref)
        && Unix(ref) >= EPOCH && Era(ref) <= Era(t)
        && -SECONDS_PER_ERA / 2 <= Unix(t) - Unix(ref) < SECONDS_PER_ERA / 2)
  }

  lemma StampLosesOne(u: int, t: int, ref: int)
    requires IsStampOf(u, t, ref)
    ensures t - 1 <= u <= t
  {
    if u != t {
      RoundTripNearReference(t, ref);
    }
  }

  // Conversion makes delays too small by at most one nanosecond each.
  lemma ConvertedIsHonest(e: Exchange, theta: int, out: int, back: int, e': Exchange, ref: int)
    requires Honest(e, theta, out, back, 0) && NoOverflow(e')
    requires IsStampOf(e'.t0, e.t0, ref) && IsStampOf(e'.t1, e.t1, ref)
    requires IsStampOf(e'.t2, e.t2, ref) && IsStampOf(e'.t3, e.t3, ref)
    requires IsInt64(e'.t3 - e'.t0 - (e'.t2 - e'.t1))
    ensures Honest(e', theta, e'.t1 - e'.t0 - theta, e'.t3 - e'.t2 + theta, 1)
  {
    StampLosesOne(e'.t0, e.t0, ref);
    StampLosesOne(e'.t1, e.t1, ref);
    StampLosesOne(e'.t2, e.t2, ref);
    StampLosesOne(e'.t3, e.t3, ref);
  }

  /* ---- What the filter computes ---- */

  datatype Item = Item(stamp: int, off: Duration, rtd: Duration)

  function ItemOf(e: Exchange): Item {
    Item(e.t0, ClockOffset(e), RoundTripDelay(e))
  }

  datatype Call = Measured(e: Exchange) | Cleared

  // The measurements since the last reset.
  ghost function SinceReset(calls: seq<Call>): seq<Item> {
    if calls == [] || calls[|calls| - 1].Cleared? then []
    else SinceReset(calls[..|calls| - 1]) + [ItemOf(calls[|calls| - 1].e)]
  }

  ghost function LastOf(s: seq<Item>, n: nat): seq<Item> {
    if |s| <= n then s else s[|s| - n..]
  }

  // p lists indices of s, each once, and no index left out has a smaller delay.
  ghost predicate IsLucky(p: seq<int>, s: seq<Item>) {
    && (forall k :: 0 <= k < |p| ==> 0 <= p[k] < |s|)
    && (forall j, k :: 0 <= j < k < |p| ==> p[j] != p[k])
    && (forall k, i :: 0 <= k < |p| && 0 <= i < |s| && i !in p ==> s[p[k]].rtd <= s[i].rtd)
  }

  ghost function Select(p: seq<int>, s: seq<Item>): (t: seq<Item>)
    requires forall k :: 0 <= k < |p| ==> 0 <= p[k] < |s|
    ensures |t| == |p| && forall k :: 0 <= k < |p| ==> t[k] == s[p[k]]
  {
    seq(|p|, k requires 0 <= k < |p| => s[p[k]])
  }

  function Off(i: Item): int { i.off }

  function Rtd(i: Item): int { i.rtd }

  // r is the middle offset of s, or the midpoint of the two middle offsets.
  ghost predicate IsMedian(r: Duration, s: seq<Item>) {
    var n, u := |s|, KeysOf(s, Off);
    && n > 0
    && if n % 2 != 0 then IsKth(u, n / 2, r)
       else exists lo: Duration, hi: Duration ::
           IsKth(u, n / 2 - 1, lo) && IsKth(u, n / 2, hi) && r == MidOffset(lo, hi)
  }

  class LuckyPacketFilter {
    const cap: nat
    const pick: nat
    var state: seq<Item>
    ghost var calls: seq<Call>

    ghost predicate Valid()
      reads `state, `calls
    {
      && state == LastOf(SinceReset(calls), cap)
      && (cap > 0 ==> pick > 0)
    }

    // NewLuckyPacketFilter
    constructor (cap: nat, pick: nat)
      requires cap > 0 && pick > 0
      ensures Valid() && calls == []
      ensures this.cap == cap && this.pick == if pick < cap then pick else cap
    {
      this.cap := cap;
      this.pick := if pick < cap then pick else cap;
      state := [];
      calls := [];
    }

    // The zero value, which does not filter.
    constructor Zero()
      ensures Valid() && calls == [] && cap == 0
    {
      cap := 0;
      pick := 0;
      state := [];
      calls := [];
    }

    method Shift(e: Exchange)
      requires Valid() && cap > 0
      modifies this
      ensures Valid() && calls == old(calls) + [Measured(e)]
      ensures 0 < |state| <= cap
      ensures state == (if |old(state)| == cap then old(state)[1..] else old(state))
                       + [Item(e.t0, ClockOffset(e), RoundTripDelay(e))]
    {
      if |state| == cap {
        state := state[1..];
      }
      state := state + [ItemOf(e)];
      calls := calls + [Measured(e)];
      assert calls[..|calls| - 1] == old(calls);
    }

    // The indices p of the lucky measurements, with the measurements themselves.
    method Lucky() returns (lucky: array<Item>, ghost p: seq<int>)
      requires Valid() && pick > 0
      ensures fresh(lucky)
      ensures IsLucky(p, state) && lucky[..] == Select(p, state)
      ensures |p| == if pick < |state| then pick else |state|
      ensures pick >= |state| ==> lucky[..] == state
    {
      var s, n := state, |state|;
      lucky := new Item[n](i requires 0 <= i < |s| => s[i]);
      assert lucky[..] == s;
      p := seq(n, i => i);
      forall i | 0 <= i < n ensures i in p {
        assert p[i] == i;
      }
      if pick < n {
        p := Sort(lucky, Rtd);
        var t := lucky[..pick];
        LuckiestFirst(s, p, lucky[..], pick);
        lucky, p := new Item[pick](i requires 0 <= i < |t| => t[i]), p[..pick];
        assert lucky[..] == t;
      }
    }

    // The offset of the filter, from the measurements with indices p of the window.
    method Do(e: Exchange) returns (offset: Duration, ghost p: seq<int>)
      requires Valid()
      modifies this
      ensures Valid() && calls == old(calls) + [Measured(e)]
      ensures state == LastOf(SinceReset(calls), cap)
      ensures if cap == 0 then offset == ClockOffset(e) && state == old(state)
        else
          && state == (if |old(state)| == cap then old(state)[1..] else old(state))
                      + [Item(e.t0, ClockOffset(e), RoundTripDelay(e))]
          && |p| == (if pick < |state| then pick else |state|)
          && IsLucky(p, state)
          && IsMedian(offset, Select(p, state))
          && (pick >= |state| ==> IsMedian(offset, state))
    {
      if cap == 0 {
        calls := calls + [Measured(e)];
        p := [];
        offset := ClockOffset(e);
        assert LastOf(SinceReset(calls), 0) == [];
        return;
      }
      Shift(e);
      var lucky;
      lucky, p := Lucky();
      offset := MedianOffset(lucky);
    }

    method Reset()
      requires Valid()
      modifies this
      ensures Valid() && calls == old(calls) + [Cleared]
      ensures state == []
    {
      state := [];
      calls := calls + [Cleared];
    }
  }

  // After k measurements since the last reset, the window has the last ones of them, as many
  // as it can hold, in order.
  lemma {:induction false} WindowIs(calls: seq<Call>, k: nat, cap: nat)
    requires k <= |calls| && (k == |calls| || calls[|calls| - k - 1].Cleared?)
    requires forall j :: |calls| - k <= j < |calls| ==> calls[j].Measured?
    ensures var w := LastOf(SinceReset(calls), cap);
      && |w| == (if k < cap then k else cap)
      && forall j :: 0 <= j < |w| ==>
          var e := calls[|calls| - |w| + j].e;
          w[j] == Item(e.t0, ClockOffset(e), RoundTripDelay(e))
  {
    hide ClockOffset, RoundTripDelay, SinceReset, LastOf;
    SinceResetIs(calls, k);
    LastOfIs(SinceReset(calls), cap);
    var s, w := SinceReset(calls), LastOf(SinceReset(calls), cap);
    forall j | 0 <= j < |w| ensures w[j] == ItemOf(calls[|calls| - |w| + j].e) {
      assert w[j] == s[k - |w| + j];
    }
  }

  lemma LastOfIs(s: seq<Item>, n: nat)
    ensures |LastOf(s, n)| == if |s| < n then |s| else n
    ensures forall j :: 0 <= j < |LastOf(s, n)| ==> LastOf(s, n)[j] == s[|s| - |LastOf(s, n)| + j]
  {
    var w, k := LastOf(s, n), |s| - |LastOf(s, n)|;
    assert w == s[k..];
    hide LastOf;
    forall j | 0 <= j < |w| ensures w[j] == s[k + j] {
    }
  }

  lemma {:induction false} SinceResetIs(calls: seq<Call>, k: nat)
    requires k <= |calls| && (k == |calls| || calls[|calls| - k - 1].Cleared?)
    requires forall j :: |calls| - k <= j < |calls| ==> calls[j].Measured?
    ensures |SinceReset(calls)| == k
    ensures forall j :: 0 <= j < k ==> SinceReset(calls)[j] == ItemOf(calls[|calls| - k + j].e)
  {
    hide ItemOf;
    if k > 0 {
      var before := calls[..|calls| - 1];
      SinceResetIs(before, k - 1);
    }
  }

  // The first elements once sorted by delay are lucky.
  lemma LuckiestFirst(s: seq<Item>, p: seq<int>, t: seq<Item>, n: nat)
    requires Rearranges(p, s, t) && Ascending(t, Rtd) && n <= |s|
    ensures IsLucky(p[..n], s) && t[..n] == Select(p[..n], s)
  {
    PermutationIsOnto(p, |s|);
    assert forall j :: 0 <= j < n ==> p[..n][j] == p[j];
    forall k, i | 0 <= k < n && 0 <= i < |s| && i !in p[..n] ensures s[p[k]].rtd <= s[i].rtd {
      assert i in FirstIndices(p, |s|);
      var j :| 0 <= j < |s| && p[j] == i;
      assert Rtd(t[k]) <= Rtd(t[j]);
    }
  }

  method MedianOffset(lucky: array<Item>) returns (offset: Duration)
    requires lucky.Length > 0
    modifies lucky
    ensures IsMedian(offset, old(lucky[..]))
  {
    ghost var s := lucky[..];
    ghost var p := Sort(lucky, Off);
    var n := lucky.Length;
    var i := n / 2;
    SortedHasKth(s, Off, p, lucky[..], i);
    if n % 2 != 0 {
      return lucky[i].off;
    }
    SortedHasKth(s, Off, p, lucky[..], i - 1);
    offset := MidOffset(lucky[i - 1].off, lucky[i].off);
  }

  /* ---- The error of the filter ---- */

  // Every measurement of s was made over paths with non-negative delays while the server
  // was ahead by theta, with stamps that lose no more than the slack.
  ghost predicate AllHonest(s: seq<Item>, theta: int, slack: nat) {
    forall i :: 0 <= i < |s| ==> IsHonest(s[i], theta, slack)
  }

  ghost predicate IsHonest(i: Item, theta: int, slack: nat) {
    exists e, out, back :: i == ItemOf(e) && Honest(e, theta, out, back, slack)
  }

  // The lucky ones have no more delay than the one whose delay is r, the |p|-th smallest.
  lemma LuckyDelays(p: seq<int>, s: seq<Item>, r: int, k: int)
    requires IsLucky(p, s) && IsKth(KeysOf(s, Rtd), |p| - 1, r) && 0 <= k < |p|
    ensures s[p[k]].rtd <= r
  {
    var u := KeysOf(s, Rtd);
    if s[p[k]].rtd > r {
      IndicesSize(p);
      var lucky := set i | i in p;
      forall i | i in AtMost(u, r) ensures i in lucky - {p[k]} {
        assert u[i] == s[i].rtd;
      }
      SubsetSize(AtMost(u, r), lucky - {p[k]});
    }
  }

  lemma {:induction false} IndicesSize(p: seq<int>)
    requires forall j, k :: 0 <= j < k < |p| ==> p[j] != p[k]
    ensures |set i | i in p| == |p|
  {
    if p == [] {
    } else {
      var q, x := p[..|p| - 1], p[|p| - 1];
      IndicesSize(q);
      assert (set i | i in p) == (set i | i in q) + {x};
    }
  }

  lemma ItemError(i: Item, theta: int, slack: nat)
    requires IsHonest(i, theta, slack)
    ensures IsNear(i.off, theta, i.rtd + 2 * slack)
  {
    var e, out, back :| i == ItemOf(e) && Honest(e, theta, out, back, slack);
    OffsetError(e, theta, out, back, slack);
  }

  // A k-th smallest offset is one of the offsets.
  lemma KthError(p: seq<int>, s: seq<Item>, theta: int, slack: nat, r: int, k: int, x: Duration)
    requires IsLucky(p, s) && IsKth(KeysOf(Select(p, s), Off), k, x)
    ensures IsKth(KeysOf(s, Rtd), |p| - 1, r) && AllHonest(s, theta, slack) ==> IsNear(x, theta, r + 2 * slack)
  {
    if !(IsKth(KeysOf(s, Rtd), |p| - 1, r) && AllHonest(s, theta, slack)) {
      return;
    }
    var t := Select(p, s);
    var j :| 0 <= j < |t| && KeysOf(t, Off)[j] == x;
    LuckyDelays(p, s, r, j);
    ItemError(s[p[j]], theta, slack);
  }

  lemma NearError(x: int, theta: int, r: int)
    requires IsNear(x, theta, r)
    ensures 2 * Abs(x - theta) <= r + 1
  {
  }

  lemma MiddleOne(offset: Duration, t: seq<Item>)
    requires IsMedian(offset, t) && |t| % 2 != 0
    ensures IsKth(KeysOf(t, Off), |t| / 2, offset)
  {
  }

  lemma MiddlePair(offset: Duration, t: seq<Item>) returns (lo: Duration, hi: Duration)
    requires IsMedian(offset, t) && |t| % 2 == 0
    ensures IsKth(KeysOf(t, Off), |t| / 2 - 1, lo) && IsKth(KeysOf(t, Off), |t| / 2, hi)
    ensures offset == MidOffset(lo, hi) && lo <= hi
  {
    var u := KeysOf(t, Off);
    lo, hi :| IsKth(u, |t| / 2 - 1, lo) && IsKth(u, |t| / 2, hi) && offset == MidOffset(lo, hi);
    if hi < lo {
      SubsetSize(AtMost(u, hi), Below(u, lo));
    }
  }

  lemma MidOffsetIsNear(lo: Duration, hi: Duration, theta: int, r: Duration)
    requires IsNear(lo, theta, r) && IsNear(hi, theta, r) && lo <= hi
    ensures 2 * Abs(MidOffset(lo, hi) - theta) <= r + 1
  {
    assert IsInt64(r);
    assert hi - lo <= r || hi == lo;
    assert IsInt64(hi - lo);
    MidOffsetBetween(lo, hi);
    assert MidOffset(lo, hi) == lo + (hi - lo) / 2;
  }

  lemma MedianIsNear(offset: Duration, t: seq<Item>, theta: int, r: Duration)
    requires IsMedian(offset, t)
    requires forall k, x: Duration :: IsKth(KeysOf(t, Off), k, x) ==> IsNear(x, theta, r)
    ensures 2 * Abs(offset - theta) <= r + 1
  {
    hide KeysOf, IsNear, MidOffset, IsKth, IsMedian;
    if |t| % 2 != 0 {
      MiddleOne(offset, t);
      NearError(offset, theta, r);
    } else {
      var lo, hi := MiddlePair(offset, t);
      MidOffsetIsNear(lo, hi, theta, r);
    }
  }

  // If the true offset stays theta while the window fills, the filter is wrong by at most
  // half of the |p|-th smallest delay in the window and the slack, rounded up: no slack for
  // exact stamps, one nanosecond for converted ones.
  lemma FilterError(offset: Duration, p: seq<int>, window: seq<Item>, theta: int, slack: nat, r: int)
    requires IsLucky(p, window) && IsMedian(offset, Select(p, window))
    ensures AllHonest(window, theta, slack) && IsKth(KeysOf(window, Rtd), |p| - 1, r) && IsInt64(r + 2 * slack) ==>
              2 * Abs(offset - theta) <= r + 2 * slack + 1
  {
    var t, bound := Select(p, window), r + 2 * slack;
    hide IsLucky, AllHonest, Select, KeysOf, IsNear, IsKth, IsMedian, Abs;
    if AllHonest(window, theta, slack) && IsKth(KeysOf(window, Rtd), |p| - 1, r) && IsInt64(bound) {
      forall k, x: Duration | IsKth(KeysOf(t, Off), k, x) ensures IsNear(x, theta, bound) {
        KthError(p, window, theta, slack, r, k, x);
      }
      MedianIsNear(offset, t, theta, bound);
    }
  }
}
