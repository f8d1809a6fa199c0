/** One client of the server's timestamp store: a buffer of eight slots for pairs of
    receive and transmit time, its priority and its position in the queue
    (core/server/server.go). */
module TssItems {
  import opened Lists
  import opened NtpTime
  import opened StoreSpec

  datatype Stamp = Stamp(rxt: Time64, txt: Time64)

  ghost predicate DistinctRx(s: seq<Stamp>) {
    forall i, j :: 0 <= i < j < |s| ==> s[i].rxt != s[j].rxt
  }

  ghost function StampsOf(s: seq<Stamp>): Stamps {
    if s == [] then map[] else StampsOf(s[..|s| - 1])[s[|s| - 1].rxt := s[|s| - 1].txt]
  }

  lemma {:induction false} StampsOfHas(s: seq<Stamp>, i: int)
    requires DistinctRx(s) && 0 <= i < |s|
    ensures s[i].rxt in StampsOf(s) && StampsOf(s)[s[i].rxt] == s[i].txt
  {
    if i < |s| - 1 {
      StampsOfHas(s[..|s| - 1], i);
    }
  }

  lemma {:induction false} StampsOfOnly(s: seq<Stamp>, k: Time64) returns (i: int)
    requires k in StampsOf(s)
    ensures 0 <= i < |s| && s[i].rxt == k
  {
    if s[|s| - 1].rxt == k {
      i := |s| - 1;
    } else {
      i := StampsOfOnly(s[..|s| - 1], k);
    }
  }

  lemma StampsOfHasNot(s: seq<Stamp>, k: Time64)
    requires forall i :: 0 <= i < |s| ==> s[i].rxt != k
    ensures k !in StampsOf(s)
  {
    if k in StampsOf(s) {
      var i := StampsOfOnly(s, k);
    }
  }

  lemma StampsOfAppended(s: seq<Stamp>, st: Stamp)
    requires DistinctRx(s) && st.rxt !in StampsOf(s)
    ensures DistinctRx(s + [st])
    ensures StampsOf(s + [st]) == StampsOf(s)[st.rxt := st.txt]
  {
    assert (s + [st])[..|s|] == s;
    forall i | 0 <= i < |s| ensures s[i].rxt != st.rxt {
      StampsOfHas(s, i);
    }
  }

  // The last pair of a buffer of distinct receive times, taken apart.
  lemma StampsOfLast(s: seq<Stamp>)
    requires DistinctRx(s) && s != []
    ensures s[|s| - 1].rxt !in StampsOf(s[..|s| - 1])
    ensures StampsOf(s[..|s| - 1]) == StampsOf(s) - {s[|s| - 1].rxt}
  {
    StampsOfHasNot(s[..|s| - 1], s[|s| - 1].rxt);
  }

  lemma {:induction false} StampsOfReplaced(s: seq<Stamp>, i: int, st: Stamp)
    requires DistinctRx(s) && 0 <= i < |s|
    requires st.rxt == s[i].rxt || st.rxt !in StampsOf(s)
    ensures DistinctRx(s[i := st])
    ensures StampsOf(s[i := st]) == (StampsOf(s) - {s[i].rxt})[st.rxt := st.txt]
  {
    var t, z := s[..|s| - 1], s[|s| - 1];
    StampsOfLast(s);
    if i == |s| - 1 {
      assert s[i := st] == t + [st];
      StampsOfAppended(t, st);
    } else {
      StampsOfHas(s, |s| - 1);
      StampsOfReplaced(t, i, st);
      assert s[i := st] == t[i := st] + [z];
      assert z.rxt !in StampsOf(t[i := st]);
      StampsOfAppended(t[i := st], z);
    }
  }

  lemma SwapRemovedIs(s: seq<Stamp>, i: int)
    requires 0 <= i < |s| - 1
    ensures SwapRemoved(s, i) == s[..|s| - 1][i := s[|s| - 1]]
  {
  }

  lemma MapUpdateRemove<K, V>(m: map<K, V>, k: K, v: V, l: K)
    requires k != l
    ensures m[k := v] - {l} == (m - {l})[k := v]
  {
  }

  // Moving the last pair to the place of the removed one loses nothing else.
  lemma StampsOfSwapRemoved(s: seq<Stamp>, i: int)
    requires DistinctRx(s) && 0 <= i < |s|
    ensures DistinctRx(SwapRemoved(s, i))
    ensures StampsOf(SwapRemoved(s, i)) == StampsOf(s) - {s[i].rxt}
  {
    var t, z := s[..|s| - 1], s[|s| - 1];
    StampsOfLast(s);
    if i == |s| - 1 {
      assert SwapRemoved(s, i) == t;
    } else {
      StampsOfReplaced(t, i, z);
      MapUpdateRemove(StampsOf(t), z.rxt, z.txt, s[i].rxt);
      SwapRemovedIs(s, i);
    }
  }

  lemma {:induction false} StampsOfSize(s: seq<Stamp>)
    requires DistinctRx(s)
    ensures |StampsOf(s)| == |s|
  {
    if s != [] {
      StampsOfLast(s);
      StampsOfSize(s[..|s| - 1]);
      MapUpdateSize(StampsOf(s[..|s| - 1]), s[|s| - 1].rxt, s[|s| - 1].txt);
    }
  }

  // What the scan of the first n pairs finds: the one a request refers to, and those with the
  // least and the greatest receive time; -1 where there is none.
  ghost predicate Scanned(p: seq<Stamp>, n: int, origin: Time64, o: int, min: int, max: int)
    requires n <= |p|
  {
    && (if o == -1 then forall j :: 0 <= j < n ==> p[j].rxt != origin
        else 0 <= o < n && p[o].rxt == origin)
    && (if min == -1 then n == 0
        else 0 <= min < n && forall j :: 0 <= j < n ==> !p[j].rxt.Before(p[min].rxt))
    && (if max == -1 then n == 0
        else 0 <= max < n && forall j :: 0 <= j < n ==> !p[max].rxt.Before(p[j].rxt))
  }

  // What the scan of the first n pairs for receive time rx finds: that pair, and the pairs
  // with the greatest and the second greatest receive time.
  ghost predicate ScannedTop(p: seq<Stamp>, n: int, rx: Time64, x: int, max0: int, max1: int)
    requires n <= |p|
  {
    && (if x == -1 then forall j :: 0 <= j < n ==> p[j].rxt != rx
        else 0 <= x < n && p[x].rxt == rx)
    && (if max0 == -1 then n == 0
        else 0 <= max0 < n && forall j :: 0 <= j < n ==> !p[max0].rxt.Before(p[j].rxt))
    && (if max1 == -1 then n <= 1
        else 0 <= max1 < n && max1 != max0 &&
             forall j :: 0 <= j < n && j != max0 ==> !p[max1].rxt.Before(p[j].rxt))
  }

  class TssItem {
    const key: ClientId
    var buf: seq<Stamp>  // eight slots
    var len: nat         // how many of them are in use
    var qval: Time64
    var qidx: int

    constructor (key: ClientId, qval: Time64)
      ensures this.key == key && this.qval == qval && len == 0 && |buf| == TSS_ITEM_CAP
    {
      this.key := key;
      this.qval := qval;
      len, qidx := 0, 0;
      buf := seq(TSS_ITEM_CAP, _ => Stamp(Time64(0, 0), Time64(0, 0)));
    }

    // One pass over the buffer before a request is recorded; it stops at a pair with
    // receive time rx.
    method Scan(rx: Time64, origin: Time64) returns (i: int, o: int, min: int, max: int)
      requires len <= |buf|
      ensures 0 <= i <= len
      ensures i != len ==> buf[i].rxt == rx
      ensures i == len ==>
                && Scanned(buf, len, origin, o, min, max)
                && forall j :: 0 <= j < len ==> buf[j].rxt != rx
    {
      i, o, min, max := 0, -1, -1, -1;
      while i != len
        invariant 0 <= i <= len
        invariant forall j :: 0 <= j < i ==> buf[j].rxt != rx
        invariant Scanned(buf, i, origin, o, min, max)
      {
        if buf[i].rxt == rx {
          break;
        }
        if buf[i].rxt == origin {
          o := i;
        }
        if min == -1 || buf[i].rxt.Before(buf[min].rxt) {
          min := i;
        }
        if max == -1 || !buf[i].rxt.Before(buf[max].rxt) {
          max := i;
        }
        i := i + 1;
      }
    }

    // One pass over the buffer before a transmit time is updated.
    method ScanTop(rx: Time64) returns (x: int, max0: int, max1: int)
      requires len <= |buf|
      ensures ScannedTop(buf, len, rx, x, max0, max1)
    {
      var i := 0;
      x, max0, max1 := -1, -1, -1;
      while i != len
        invariant 0 <= i <= len
        invariant ScannedTop(buf, i, rx, x, max0, max1)
      {
        if buf[i].rxt == rx {
          x := i;
        }
        if max0 == -1 || !buf[i].rxt.Before(buf[max0].rxt) {
          max0, max1 := i, max0;
        } else if max1 == -1 || !buf[i].rxt.Before(buf[max1].rxt) {
          max1 := i;
        }
        i := i + 1;
      }
    }
  }
}
