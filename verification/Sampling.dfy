/** Reservoir sampling with RandIntn as a source of choices (base/crypto/crypto.go). */
module Sampling {
  import opened Sorting

  /* ---- The slots ---- */

  // The choices made so far, one for each element from k on, the latest one outermost.
  datatype Draws = Empty | Draw(before: Draws, choice: int) {
    ghost function Count(): nat {
      if Empty? then 0 else before.Count() + 1
    }
  }

  // Element i draws a number below i + 1.
  ghost predicate AreDraws(k: nat, d: Draws) {
    d.Draw? ==> AreDraws(k, d.before) && 0 <= d.choice <= k + d.before.Count()
  }

  // The indices of the elements in the k slots.
  ghost function Slots(k: nat, d: Draws): (r: seq<int>)
    requires AreDraws(k, d)
    ensures |r| == k
  {
    if d.Empty? then seq(k, i => i)
    else if d.choice < k then Slots(k, d.before)[d.choice := k + d.before.Count()]
    else Slots(k, d.before)
  }

  // The slots hold different elements of those seen so far.
  lemma {:induction false} SlotsAreDistinct(k: nat, d: Draws)
    requires AreDraws(k, d)
    ensures forall i :: 0 <= i < k ==> 0 <= Slots(k, d)[i] < k + d.Count()
    ensures forall i, j :: 0 <= i < j < k ==> Slots(k, d)[i] != Slots(k, d)[j]
  {
    if d.Draw? {
      SlotsAreDistinct(k, d.before);
    }
  }

  // t is s after the draws: in slot i there is the element of s with index Slots(k, d)[i],
  // and nothing but the slots has changed.
  ghost predicate Sampled<T(!new)>(t: seq<T>, s: seq<T>, k: nat, d: Draws) {
    && AreDraws(k, d)
    && k <= |t| == |s|
    && (forall i :: 0 <= i < k ==> 0 <= Slots(k, d)[i] < |s| && t[i] == s[Slots(k, d)[i]])
    && (forall i :: k <= i < |s| ==> t[i] == s[i])
  }

  function SampleSize(k: nat, n: nat): (r: nat)
    ensures r <= k && r <= n && (r == k || r == n)
  {
    if n < k then n else k
  }

  // The numbers that m draws take from the source of randomness: one each, except that a
  // draw from a single element takes none.
  function NumbersTaken(k: nat, m: nat): nat {
    if k == 0 && m > 0 then m - 1 else m
  }

  // A number below n.
  function Reduced(x: nat, n: int): (r: nat)
    requires n > 0
    ensures r < n && x == x / n * n + r
    ensures x < n ==> r == x
  {
    x % n
  }

  // RandIntn(n): the next number of the source, cut to the range.
  method RandIntn(n: int, source: seq<nat>, pos: nat) returns (ok: bool, j: int, pos': nat)
    requires n > 0 && pos <= |source|
    ensures ok <==> n < 2 || pos < |source|
    ensures ok ==> 0 <= j < n && j == (if n < 2 then 0 else Reduced(source[pos], n))
    ensures ok ==> pos' == (if n < 2 then pos else pos + 1)
  {
    if n < 2 {
      return true, 0, pos;
    }
    if pos == |source| {
      return false, 0, pos;
    }
    ok, j, pos' := true, Reduced(source[pos], n), pos + 1;
  }

  // The first m draws with a source.
  ghost function DrawsFrom(k: nat, source: seq<nat>, m: nat): (d: Draws)
    requires NumbersTaken(k, m) <= |source|
    ensures AreDraws(k, d) && d.Count() == m
  {
    if m == 0 then Empty
    else Draw(DrawsFrom(k, source, m - 1), DrawnNumber(k, source, m))
  }

  // The choice of draw m.
  ghost function DrawnNumber(k: nat, source: seq<nat>, m: nat): (j: nat)
    requires 0 < m && NumbersTaken(k, m) <= |source|
    ensures j < k + m
  {
    if k + m < 2 then 0 else Reduced(source[NumbersTaken(k, m) - 1], k + m)
  }

  // Any draws can come from a source.
  lemma {:induction false} DrawsComeFromSource(k: nat, d: Draws) returns (source: seq<nat>)
    requires AreDraws(k, d)
    ensures |source| == NumbersTaken(k, d.Count()) && DrawsFrom(k, source, d.Count()) == d
  {
    if d.Empty? {
      source := [];
    } else {
      var rest := DrawsComeFromSource(k, d.before);
      var m := d.Count();
      source := if k + m < 2 then rest else rest + [d.choice];
      SamePrefix(k, rest, source, m - 1);
      assert DrawnNumber(k, source, m) == d.choice;
      hide Reduced, DrawnNumber, AreDraws;
    }
  }

  lemma {:induction false} SamePrefix(k: nat, s: seq<nat>, t: seq<nat>, m: nat)
    requires NumbersTaken(k, m) <= |s| <= |t| && s == t[..|s|]
    ensures DrawsFrom(k, s, m) == DrawsFrom(k, t, m)
  {
    if m > 0 {
      SamePrefix(k, s, t, m - 1);
    }
  }

  lemma SampledNone<T(!new)>(s: seq<T>, k: nat)
    requires k <= |s|
    ensures Sampled(s, s, k, Empty)
  {
  }

  // One more draw: the newest element goes to the slot drawn, if there is such a slot.
  lemma SampledStep<T(!new)>(t: seq<T>, s: seq<T>, k: nat, d: Draws, i: nat, j: int)
    requires Sampled(t, s, k, d) && 0 <= j <= i == k + d.Count() < |s|
    ensures |t| == |s| && Sampled(if j < k then t[j := t[i]] else t, s, k, Draw(d, j))
  {
    assert AreDraws(k, Draw(d, j));
    assert Slots(k, Draw(d, j)) == if j < k then Slots(k, d)[j := i] else Slots(k, d);
  }

  // The pick function: ps[dst] = ps[src].
  method Copy<T>(ps: array<T>, dst: nat, src: nat)
    requires dst < ps.Length && src < ps.Length
    modifies ps
    ensures ps[..] == old(ps[..])[dst := old(ps[..])[src]]
  {
    ps[dst] := ps[src];
  }

  lemma NumbersTakenGrows(k: nat, l: nat, m: nat)
    requires l <= m
    ensures NumbersTaken(k, l) <= NumbersTaken(k, m)
  {
  }

  lemma NoDraws(k: nat, source: seq<nat>)
    ensures NumbersTaken(k, 0) == 0 && DrawsFrom(k, source, 0) == Empty
  {
  }

  // The draw for element i.
  method NextDraw(k: nat, i: nat, source: seq<nat>, pos: nat, ghost d: Draws) returns (ok: bool, j: int, pos': nat)
    requires k <= i && pos == NumbersTaken(k, i - k) <= |source| && d == DrawsFrom(k, source, i - k)
    ensures ok <==> NumbersTaken(k, i + 1 - k) <= |source|
    ensures ok ==> 0 <= j <= i && pos' == NumbersTaken(k, i + 1 - k) && Draw(d, j) == DrawsFrom(k, source, i + 1 - k)
  {
    ok, j, pos' := RandIntn(i + 1, source, pos);
    hide Reduced;
    if ok {
      assert j == DrawnNumber(k, source, i + 1 - k);
    }
  }

  // Sample with a pick function that copies elements within ps. Numbers are drawn from
  // the source in turn; drawing fails when there are no more.
  method Sample<T(!new)>(ps: array<T>, k0: nat, n: nat, source: seq<nat>) returns (k: nat, ok: bool)
    requires n <= ps.Length
    modifies ps
    ensures ok <==> |source| >= NumbersTaken(SampleSize(k0, n), n - SampleSize(k0, n))
    ensures ok ==> k == SampleSize(k0, n) && Sampled(ps[..], old(ps[..]), k, DrawsFrom(k, source, n - k))
    ensures !ok ==> k == 0
  {
    k := SampleSize(k0, n);
    ghost var s := ps[..];
    ghost var d := Empty;
    hide Sampled, DrawsFrom, NumbersTaken;
    var i, pos := 0, 0;
    while i != k
      invariant 0 <= i <= k && ps[..] == s
    {
      Copy(ps, i, i);
      i := i + 1;
    }
    i := k;
    SampledNone(s, k);
    NoDraws(k, source);
    while i != n
      invariant k <= i <= n && pos == NumbersTaken(k, i - k) <= |source|
      invariant d == DrawsFrom(k, source, i - k) && Sampled(ps[..], s, k, d)
    {
      NumbersTakenGrows(k, i + 1 - k, n - k);
      var drawn, j;
      drawn, j, pos := NextDraw(k, i, source, pos, d);
      if !drawn {
        return 0, false;
      }
      SampledStep(ps[..], s, k, d, i, j);
      if j < k {
        Copy(ps, j, i);
      }
      d := Draw(d, j);
      i := i + 1;
    }
    ok := true;
  }

  /* ---- Counting over all draws ---- */

  // Each of s, followed by each choice of js.
  ghost function Extended(s: set<Draws>, js: set<int>): set<Draws> {
    set d, j | d in s && j in js :: Draw(d, j)
  }

  lemma ExtendedIff(s: set<Draws>, js: set<int>, e: Draws)
    ensures e in Extended(s, js) <==> e.Draw? && e.before in s && e.choice in js
  {
  }

  lemma {:induction false} ExtendedByOne(s: set<Draws>, j: int)
    ensures |Extended(s, {j})| == |s|
  {
    if s == {} {
      assert Extended(s, {j}) == {};
    } else {
      var d :| d in s;
      ExtendedByOne(s - {d}, j);
      assert Extended(s, {j}) == Extended(s - {d}, {j}) + {Draw(d, j)};
    }
  }

  lemma ExtendedByMore(s: set<Draws>, js: set<int>, j: int)
    requires j in js
    ensures |Extended(s, js)| == |Extended(s, js - {j})| + |s|
  {
    assert Extended(s, js) == Extended(s, js - {j}) + Extended(s, {j});
    assert Extended(s, js - {j}) !! Extended(s, {j});
    hide Extended;
    ExtendedByOne(s, j);
  }

  // Different extensions are different, so they are counted by a product.
  lemma {:induction false} ExtendedSize(s: set<Draws>, js: set<int>)
    ensures |Extended(s, js)| == |s| * |js|
  {
    if js == {} {
      assert Extended(s, js) == {};
    } else {
      hide Extended;
      var j := Pick(js);
      ExtendedByMore(s, js, j);
      ExtendedSize(s, js - {j});
      assert |s| * |js| == |s| * (|js| - 1) + |s|;
    }
  }

  // All ways to draw m times.
  ghost function AllDraws(k: nat, m: nat): set<Draws> {
    if m == 0 then {Empty} else Extended(AllDraws(k, m - 1), Range(k + m))
  }

  lemma {:induction false} AllDrawsIff(k: nat, m: nat, d: Draws)
    ensures d in AllDraws(k, m) <==> d.Count() == m && AreDraws(k, d)
    decreases d
  {
    if d.Draw? && m > 0 {
      AllDrawsIff(k, m - 1, d.before);
    }
  }

  // Element x is in a slot after the draws.
  ghost predicate Keeps(k: nat, d: Draws, x: nat) {
    AreDraws(k, d) && x in Slots(k, d)
  }

  ghost function Keeping(k: nat, m: nat, x: nat): set<Draws> {
    set d | d in AllDraws(k, m) && Keeps(k, d, x)
  }

  // The slot of an element that was kept.
  ghost function SlotOf(k: nat, d: Draws, x: nat): (i: int)
    requires Keeps(k, d, x)
    ensures 0 <= i < k && Slots(k, d)[i] == x
  {
    var i :| 0 <= i < k && Slots(k, d)[i] == x;
    i
  }

  // One more choice keeps the newest element exactly if it is a slot, and an old element
  // exactly if it is not its slot.
  lemma KeepsNewest(k: nat, d: Draws, j: int)
    requires AreDraws(k, d) && 0 <= j <= k + d.Count()
    ensures Keeps(k, Draw(d, j), k + d.Count()) <==> j < k
  {
    SlotsAreDistinct(k, d);
    assert Slots(k, Draw(d, j)) == if j < k then Slots(k, d)[j := k + d.Count()] else Slots(k, d);
    if j < k {
      assert Slots(k, Draw(d, j))[j] == k + d.Count();
    }
  }

  lemma KeepsOld(k: nat, d: Draws, j: int, x: nat)
    requires AreDraws(k, d) && 0 <= j <= k + d.Count() && x < k + d.Count()
    ensures Keeps(k, Draw(d, j), x) <==> Keeps(k, d, x) && j != SlotOf(k, d, x)
  {
    SlotsAreDistinct(k, d);
    if Keeps(k, d, x) && j != SlotOf(k, d, x) {
      assert Slots(k, Draw(d, j))[SlotOf(k, d, x)] == x;
    }
  }

  // The draws whose last choice drops element x.
  ghost function Dropping(k: nat, s: set<Draws>, x: nat): set<Draws> {
    set d | d in s && Keeps(k, d, x) :: Draw(d, SlotOf(k, d, x))
  }

  lemma {:induction false} DroppingSize(k: nat, s: set<Draws>, x: nat)
    requires forall d :: d in s ==> Keeps(k, d, x)
    ensures |Dropping(k, s, x)| == |s|
  {
    if s == {} {
      assert Dropping(k, s, x) == {};
    } else {
      var d :| d in s;
      DroppingSize(k, s - {d}, x);
      assert Dropping(k, s, x) == Dropping(k, s - {d}, x) + {Draw(d, SlotOf(k, d, x))};
    }
  }

  lemma KeepingNewestIff(k: nat, m: nat, e: Draws)
    requires m > 0
    ensures e in Keeping(k, m, k + m - 1) <==> e in Extended(AllDraws(k, m - 1), Range(k))
  {
    KeepingIff(k, m, k + m - 1, e);
    ExtendedIff(AllDraws(k, m - 1), Range(k), e);
    assert Keeps(k, e, k + m - 1) ==> AreDraws(k, e);
    hide AllDraws, Extended, Keeping, Keeps;
    if e.Draw? {
      var d, j := e.before, e.choice;
      assert e == Draw(d, j);
      AllDrawsIff(k, m - 1, d);
      if d in AllDraws(k, m - 1) && 0 <= j < k + m {
        KeepsNewest(k, d, j);
        assert j in Range(k) <==> j < k;
      }
    }
  }

  lemma KeepingIff(k: nat, m: nat, x: nat, e: Draws)
    ensures e in Keeping(k, m, x) <==> e.Count() == m && Keeps(k, e, x)
  {
    AllDrawsIff(k, m, e);
  }

  lemma KeepingNewest(k: nat, m: nat)
    requires m > 0
    ensures Keeping(k, m, k + m - 1) == Extended(AllDraws(k, m - 1), Range(k))
  {
    var a, b := Keeping(k, m, k + m - 1), Extended(AllDraws(k, m - 1), Range(k));
    hide Keeping, Extended, AllDraws;
    forall e | e in a ensures e in b {
      KeepingNewestIff(k, m, e);
    }
    forall e | e in b ensures e in a {
      KeepingNewestIff(k, m, e);
    }
  }

  lemma KeepingOldIff(k: nat, m: nat, x: nat, e: Draws)
    requires m > 0 && x < k + m - 1
    ensures var s := Keeping(k, m - 1, x);
      && (e in Dropping(k, s, x) ==> e in Extended(s, Range(k + m)))
      && (e in Keeping(k, m, x) <==> e in Extended(s, Range(k + m)) && e !in Dropping(k, s, x))
  {
    var s := Keeping(k, m - 1, x);
    KeepingIff(k, m, x, e);
    ExtendedIff(s, Range(k + m), e);
    DroppingIff(k, s, x, e);
    assert Keeps(k, e, x) ==> AreDraws(k, e);
    if e.Draw? {
      KeepingIff(k, m - 1, x, e.before);
      assert Keeps(k, e.before, x) ==> AreDraws(k, e.before);
      hide AllDraws, Extended, Keeping, Dropping, Keeps;
      if AreDraws(k, e) && e.Count() == m {
        KeepsOld(k, e.before, e.choice, x);
      }
    }
  }

  lemma DroppingIff(k: nat, s: set<Draws>, x: nat, e: Draws)
    ensures e in Dropping(k, s, x) <==>
              e.Draw? && e.before in s && Keeps(k, e.before, x) && e.choice == SlotOf(k, e.before, x)
  {
  }

  lemma KeepingOld(k: nat, m: nat, x: nat)
    requires m > 0 && x < k + m - 1
    ensures var s := Keeping(k, m - 1, x);
      && Dropping(k, s, x) <= Extended(s, Range(k + m))
      && Keeping(k, m, x) == Extended(s, Range(k + m)) - Dropping(k, s, x)
  {
    var s := Keeping(k, m - 1, x);
    hide AllDraws, Extended, Keeping, Dropping;
    var a, b, c := Keeping(k, m, x), Extended(s, Range(k + m)), Dropping(k, s, x);
    forall e | e in a ensures e in b && e !in c {
      KeepingOldIff(k, m, x, e);
    }
    forall e | e in b && e !in c ensures e in a {
      KeepingOldIff(k, m, x, e);
    }
    forall e | e in c ensures e in b {
      KeepingOldIff(k, m, x, e);
    }
  }

  // Every element is kept by the same share of all draws: k out of n.
  lemma {:induction false} SamplingIsUniform(k: nat, m: nat, x: nat)
    requires x < k + m
    ensures |Keeping(k, m, x)| * (k + m) == k * |AllDraws(k, m)|
  {
    if m == 0 {
      assert Slots(k, Empty)[x] == x;
      assert Keeping(k, 0, x) == {Empty};
    } else if x == k + m - 1 {
      NewestIsUniform(k, m);
    } else {
      SamplingIsUniform(k, m - 1, x);
      OldIsUniform(k, m, x);
    }
  }

  lemma NewestIsUniform(k: nat, m: nat)
    requires m > 0
    ensures |Keeping(k, m, k + m - 1)| * (k + m) == k * |AllDraws(k, m)|
  {
    var a := AllDraws(k, m - 1);
    assert AllDraws(k, m) == Extended(a, Range(k + m));
    hide *;
    ExtendedSize(a, Range(k + m));
    ExtendedSize(a, Range(k));
    KeepingNewest(k, m);
    NewShare(|Keeping(k, m, k + m - 1)|, |AllDraws(k, m)|, |a|, k, k + m);
  }

  lemma OldIsUniform(k: nat, m: nat, x: nat)
    requires m > 0 && x < k + m - 1
    requires |Keeping(k, m - 1, x)| * (k + m - 1) == k * |AllDraws(k, m - 1)|
    ensures |Keeping(k, m, x)| * (k + m) == k * |AllDraws(k, m)|
  {
    var a, s := AllDraws(k, m - 1), Keeping(k, m - 1, x);
    ExtendedSize(a, Range(k + m));
    assert |AllDraws(k, m)| == |a| * (k + m);
    OldSize(k, m, x);
    hide *;
    OldShare(|Keeping(k, m, x)|, |AllDraws(k, m)|, |s|, |a|, k, k + m);
  }

  lemma OldSize(k: nat, m: nat, x: nat)
    requires m > 0 && x < k + m - 1
    ensures |Keeping(k, m, x)| == |Keeping(k, m - 1, x)| * (k + m) - |Keeping(k, m - 1, x)|
  {
    var s := Keeping(k, m - 1, x);
    assert forall d :: d in s ==> Keeps(k, d, x);
    hide *;
    DroppingSize(k, s, x);
    ExtendedSize(s, Range(k + m));
    KeepingOld(k, m, x);
    DifferenceSize(Extended(s, Range(k + m)), Dropping(k, s, x));
  }

  lemma DifferenceSize<T>(a: set<T>, b: set<T>)
    requires b <= a
    ensures |a - b| == |a| - |b|
  {
    assert a == (a - b) + b;
  }

  lemma NewShare(b': int, a': int, a: nat, k: nat, n: nat)
    requires b' == a * k && a' == a * n
    ensures b' * n == k * a'
  {
  }

  lemma OldShare(b': int, a': int, b: nat, a: nat, k: nat, n: nat)
    requires n > 0 && b * (n - 1) == k * a && b' == b * n - b && a' == a * n
    ensures b' * n == k * a'
  {
    assert b' == b * (n - 1);
    assert (b * (n - 1)) * n == (k * a) * n;
  }
}
