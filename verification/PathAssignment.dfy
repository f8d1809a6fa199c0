/** Giving the clients of a measurement their paths (core/client/client.go). */
module PathAssignment {
  import opened Lists
  import opened LuckyFilters
  import opened Options
  import opened Sampling

  type Fingerprint(==, 0, !new)

  // A path; the fingerprint is None if it is the empty string.
  datatype Path = Path(fingerprint: Option<Fingerprint>, hops: seq<int>)


  // The part of a SCION client that path assignment uses.
  class SCIONClient {
    const interleavedMode: bool
    const filter: LuckyPacketFilter?
    var hasReference: bool
    var path: Option<Fingerprint>
    var interleaved: bool

    predicate InInterleavedMode()
      reads `hasReference, `interleaved
    {
      interleavedMode && hasReference && interleaved
    }

    function InterleavedModePath(): Option<Fingerprint>
      reads `hasReference, `interleaved, `path
    {
      if InInterleavedMode() then path else None
    }

    // ResetInterleavedMode, then Reset of the filter if there is one.
    method GiveUpPath()
      requires filter != null ==> filter.Valid()
      modifies `hasReference, filter
      ensures !hasReference && !InInterleavedMode()
      ensures filter != null ==> filter.Valid() && filter.state == []
    {
      hasReference := false;
      if filter != null {
        filter.Reset();
      }
    }
  }

  /* ---- Lists of positions ---- */

  // The paths of ps up to n are those of s at the positions in left, which are different.
  ghost predicate Holds(ps: seq<Path>, n: nat, s: seq<Path>, left: seq<int>) {
    && |left| == n <= |ps|
    && (forall j :: 0 <= j < n ==> 0 <= left[j] < |s| && ps[j] == s[left[j]])
    && (forall j, k :: 0 <= j < k < n ==> left[j] != left[k])
  }

  // Client i has the path of s at position at[i], or no path if that is -1, and no
  // position is used twice.
  ghost predicate Given(sps: seq<Option<Path>>, s: seq<Path>, at: seq<int>) {
    && |sps| == |at|
    && (forall i :: 0 <= i < |at| ==> -1 <= at[i] < |s|)
    && (forall i :: 0 <= i < |at| ==> sps[i] == if at[i] < 0 then None else Some(s[at[i]]))
    && (forall i, j :: 0 <= i < j < |at| && at[i] >= 0 ==> at[i] != at[j])
  }

  // No position is both used and left.
  ghost predicate Apart(at: seq<int>, left: seq<int>) {
    forall i :: 0 <= i < |at| && at[i] >= 0 ==> at[i] !in left
  }

  // The number of clients from i on that have no path.
  ghost function Without(at: seq<int>, i: nat): (r: nat)
    requires i <= |at|
    ensures r <= |at| - i
    decreases |at| - i
  {
    if i == |at| then 0 else (if at[i] < 0 then 1 else 0) + Without(at, i + 1)
  }

  lemma {:induction false} WithoutGiven(at: seq<int>, i: nat, c: nat, q: nat)
    requires i <= |at| && c < |at| && at[c] < 0
    ensures Without(at[c := q], i) == Without(at, i) - (if i <= c then 1 else 0)
    decreases |at| - i
  {
    if i < |at| {
      WithoutGiven(at, i + 1, c, q);
    }
  }

  lemma {:induction false} AllWithout(at: seq<int>, i: nat)
    requires i <= |at| && forall c :: 0 <= c < |at| ==> at[c] < 0
    ensures Without(at, i) == |at| - i
    decreases |at| - i
  {
    if i < |at| {
      AllWithout(at, i + 1);
    }
  }

  /* ---- Clients that keep their paths ---- */

  lemma SwapRemovedHas(left: seq<int>, j: int, q: int)
    requires 0 <= j < |left| && q in left && q != left[j]
    ensures q in SwapRemoved(left, j)
  {
    var k :| 0 <= k < |left| && left[k] == q;
    assert SwapRemoved(left, j)[if k == |left| - 1 then j else k] == q;
  }

  // Position q has been taken out of left, unless it is -1.
  ghost predicate IsTaken(q: int, left: seq<int>, left': seq<int>) {
    && (q >= 0 ==> q in left && q !in left')
    && (forall r :: r in left' ==> r in left)
    && (forall r :: r in left && r != q ==> r in left')
  }

  // No position left has the fingerprint f.
  ghost predicate IsGone(f: Option<Fingerprint>, s: seq<Path>, left: seq<int>) {
    f.Some? ==> forall r :: r in left && 0 <= r < |s| ==> s[r].fingerprint != f
  }

  // Entry j is the first one left with the fingerprint f.
  ghost predicate IsFirst(j: int, f: Option<Fingerprint>, s: seq<Path>, left: seq<int>) {
    && 0 <= j < |left| && 0 <= left[j] < |s| && s[left[j]].fingerprint == f
    && forall k :: 0 <= k < j && 0 <= left[k] < |s| ==> s[left[k]].fingerprint != f
  }

  // Takes the first path with the fingerprint out of the first n of ps, if there is one; q is its
  // position in s.
  method TakePath(ps: array<Path>, n: nat, f: Fingerprint, ghost s: seq<Path>, ghost left: seq<int>)
    returns (p: Option<Path>, n': nat, ghost q: int, ghost left': seq<int>)
    requires Holds(ps[..], n, s, left)
    modifies ps
    ensures Holds(ps[..], n', s, left')
    ensures q < 0 ==> q == -1 && p.None? && n' == n && left' == left
    ensures q < 0 ==> IsGone(Some(f), s, left)
    ensures q >= 0 ==> q < |s| && p == Some(s[q]) && s[q].fingerprint == Some(f)
    ensures q >= 0 ==> n' == n - 1
    ensures q >= 0 ==> exists j :: IsFirst(j, Some(f), s, left) && left[j] == q
    ensures IsTaken(q, left, left')
  {
    p, n', q, left' := None, n, -1, left;
    var j := 0;
    while j < n
      invariant 0 <= j <= n
      invariant forall k :: 0 <= k < j ==> ps[k].fingerprint != Some(f)
    {
      if ps[j].fingerprint == Some(f) {
        assert IsFirst(j, Some(f), s, left);
        p, q, left' := Some(ps[j]), left[j], SwapRemoved(left, j);
        ps[j] := ps[n - 1];
        n' := n - 1;
        forall r | r in left && r != q ensures r in left' {
          SwapRemovedHas(left, j, r);
        }
        return;
      }
      j := j + 1;
    }
  }

  // Every position of s is left or used.
  ghost predicate Covered(n: nat, at: seq<int>, left: seq<int>) {
    forall q :: 0 <= q < n ==> q in left || q in at
  }

  // Giving position q to client i.
  lemma GiveStep(sps: seq<Option<Path>>, s: seq<Path>, at: seq<int>, left: seq<int>, i: nat, q: nat, left': seq<int>)
    requires Given(sps, s, at) && Apart(at, left) && Covered(|s|, at, left)
    requires i < |at| && at[i] < 0 && q < |s| && IsTaken(q, left, left')
    ensures Given(sps[i := Some(s[q])], s, at[i := q])
    ensures Apart(at[i := q], left') && Covered(|s|, at[i := q], left')
    ensures Without(at[i := q], 0) == Without(at, 0) - 1
  {
    WithoutGiven(at, 0, i, q);
    var at' := at[i := q];
    forall r | 0 <= r < |s| ensures r in left' || r in at' {
      if r == q {
        assert at'[i] == r;
      } else if r in at {
        var k :| 0 <= k < |at| && at[k] == r;
        assert at'[k] == r;
      }
    }
  }

  // What path assignment may change of a client.
  datatype Mode = Mode(path: Option<Fingerprint>, interleaved: bool, window: seq<Item>)

  ghost function ModeOf(c: SCIONClient): Mode
    reads c`hasReference, c`interleaved, c`path, c.filter
  {
    Mode(c.InterleavedModePath(), c.InInterleavedMode(), if c.filter == null then [] else c.filter.state)
  }

  // A client is in interleaved mode if it may be, has a reference, and its last response was
  // interleaved; only then has it a path to keep.
  lemma ModeIs(c: SCIONClient)
    ensures var on := c.interleavedMode && c.hasReference && c.interleaved;
      ModeOf(c).interleaved == on && ModeOf(c).path == if on then c.path else None
  {
  }

  // With position q, a client keeps the path it had, and its state; without one it leaves
  // interleaved mode and forgets its measurements.
  ghost predicate Settled(now: Mode, before: Mode, s: seq<Path>, q: int)
    requires q < |s|
  {
    if q >= 0 then now == before && now.path.Some? && s[q].fingerprint == now.path
    else now == Mode(None, false, [])
  }

  // No two clients are the same or share a filter.
  ghost predicate AreClients(clients: seq<SCIONClient>) {
    forall i, j :: 0 <= i < j < |clients| ==>
      && clients[i] != clients[j]
      && (clients[i].filter != null ==> clients[i].filter != clients[j].filter)
  }

  ghost function Filters(clients: seq<SCIONClient>): set<LuckyPacketFilter?> {
    set i | 0 <= i < |clients| && clients[i].filter != null :: clients[i].filter
  }

  ghost predicate FiltersValid(clients: seq<SCIONClient>)
    reads Filters(clients)
  {
    forall i :: 0 <= i < |clients| && clients[i].filter != null ==>
      clients[i].filter in Filters(clients) && clients[i].filter.Valid()
  }

  ghost function Modes(clients: seq<SCIONClient>): (r: seq<Mode>)
    reads clients, Filters(clients)
    ensures |r| == |clients|
  {
    assert forall i :: 0 <= i < |clients| && clients[i].filter != null ==> clients[i].filter in Filters(clients);
    seq(|clients|, i requires 0 <= i < |clients| reads clients, Filters(clients) => ModeOf(clients[i]))
  }

  lemma ModesAre(clients: seq<SCIONClient>)
    ensures forall i :: 0 <= i < |clients| ==> Modes(clients)[i] == ModeOf(clients[i])
  {
  }

  // Each client stays in its mode, though its filter may be reset with another one's, or
  // leaves interleaved mode.
  ghost predicate StayOrLeave(now: seq<Mode>, before: seq<Mode>) {
    && |now| == |before|
    && forall k :: 0 <= k < |now| ==>
        || (now[k].path == before[k].path && now[k].interleaved == before[k].interleaved)
        || (now[k].path == None && !now[k].interleaved)
  }

  method GiveUp(ghost clients: seq<SCIONClient>, ghost i: nat, c: SCIONClient)
    requires FiltersValid(clients) && i < |clients| && c == clients[i]
    modifies c`hasReference, c.filter
    ensures FiltersValid(clients)
    ensures ModeOf(c) == Mode(None, false, [])
    ensures StayOrLeave(Modes(clients), old(Modes(clients)))
    ensures AreClients(clients) ==> Modes(clients) == old(Modes(clients))[i := ModeOf(c)]
  {
    hide LuckyPacketFilter.Valid, Modes;
    assert c.filter != null ==> c.filter in Filters(clients) && c.filter.Valid();
    ModesAre(clients);
    c.GiveUpPath();
    ModesAre(clients);
    if AreClients(clients) {
      forall k | 0 <= k < |clients| && k != i ensures ModeOf(clients[k]) == old(ModeOf(clients[k])) {
      }
    }
  }

  lemma NoneTaken(s: seq<Path>, left: seq<int>)
    ensures IsTaken(-1, left, left) && IsGone(None, s, left)
  {
  }

  // Client i looks for its path.
  method KeepPath(ghost clients: seq<SCIONClient>, ghost i: nat, c: SCIONClient, ps: array<Path>, n: nat,
                  ghost s: seq<Path>, ghost left: seq<int>)
    returns (p: Option<Path>, n': nat, ghost q: int, ghost left': seq<int>)
    requires Holds(ps[..], n, s, left)
    requires FiltersValid(clients) && i < |clients| && c == clients[i]
    modifies ps, c`hasReference, c.filter
    ensures Holds(ps[..], n', s, left')
    ensures FiltersValid(clients)
    ensures StayOrLeave(Modes(clients), old(Modes(clients)))
    ensures AreClients(clients) ==> Modes(clients) == old(Modes(clients))[i := Modes(clients)[i]]
    ensures -1 <= q < |s| && Settled(Modes(clients)[i], old(Modes(clients))[i], s, q)
    ensures if q < 0 then p.None? && n' == n && left' == left else p == Some(s[q]) && n' == n - 1
    ensures IsTaken(q, left, left')
    ensures q < 0 ==> IsGone(old(Modes(clients))[i].path, s, left)
  {
    hide Holds, IsTaken, IsGone, AreClients, LuckyPacketFilter.Valid;
    p, n', q, left' := None, n, -1, left;
    NoneTaken(s, left);
    ModesAre(clients);
    var pf := c.InterleavedModePath();
    if pf.Some? {
      p, n', q, left' := TakePath(ps, n, pf.value, s, left);
    }
    if p.None? {
      GiveUp(clients, i, c);
      ModesAre(clients);
    }
  }

  // The first c clients are settled, and where a client lost its path, it was taken by the
  // clients before it.
  ghost predicate AllSettled(now: seq<Mode>, before: seq<Mode>, s: seq<Path>, at: seq<int>, c: nat) {
    && c <= |now| == |before| == |at|
    && (forall i :: 0 <= i < c ==> at[i] < |s| && Settled(now[i], before[i], s, at[i]))
    && (forall i :: c <= i < |now| ==> now[i] == before[i] && at[i] == -1)
    && (forall i, q ::
          0 <= i < c && at[i] < 0 && before[i].path.Some? && 0 <= q < |s| && s[q].fingerprint == before[i].path
          ==> q in at[..i])
  }

  lemma SettleStep(now: seq<Mode>, before: seq<Mode>, s: seq<Path>, at: seq<int>, left: seq<int>, c: nat,
                   m: Mode, q: int)
    requires AllSettled(now, before, s, at, c) && c < |now| && Covered(|s|, at, left)
    requires -1 <= q < |s| && Settled(m, before[c], s, q)
    requires q < 0 ==> IsGone(before[c].path, s, left)
    ensures AllSettled(now[c := m], before, s, at[c := q], c + 1)
  {
    var at' := at[c := q];
    forall i, r | 0 <= i <= c && at'[i] < 0 && before[i].path.Some?
                  && 0 <= r < |s| && s[r].fingerprint == before[i].path
      ensures r in at'[..i]
    {
      assert at'[..i] == at[..i];
      if i == c {
        assert r in at;
        var k :| 0 <= k < |at| && at[k] == r;
        assert k < c;
        assert at[..i][k] == r;
      }
    }
  }

  // Of the first c clients only those are in interleaved mode that have their path, and no
  // other one has a path.
  ghost predicate OnOldPaths(now: seq<Mode>, s: seq<Path>, at: seq<int>, c: nat) {
    && c <= |now| == |at|
    && (forall i :: 0 <= i < c && (now[i].interleaved || now[i].path.Some?) ==>
          0 <= at[i] < |s| && now[i].path.Some? && s[at[i]].fingerprint == now[i].path)
    && (forall i :: c <= i < |at| ==> at[i] == -1)
  }

  // After the first c clients: nsps of them have got their paths. If no two clients are the
  // same or share a filter, they are settled.
  ghost predicate Keeping(apart: bool, now: seq<Mode>, before: seq<Mode>, s: seq<Path>, at: seq<int>, left: seq<int>,
                          sps: seq<Option<Path>>, nsps: int, c: nat)
  {
    && (apart ==> AllSettled(now, before, s, at, c))
    && OnOldPaths(now, s, at, c)
    && Given(sps, s, at) && Apart(at, left) && Covered(|s|, at, left)
    && Without(at, 0) + nsps == |at|
  }

  lemma KeepingNone(apart: bool, now: seq<Mode>, s: seq<Path>, at: seq<int>, left: seq<int>, sps: seq<Option<Path>>)
    requires |at| == |sps| == |now| && |left| == |s|
    requires forall i :: 0 <= i < |at| ==> at[i] == -1 && sps[i] == None
    requires forall i :: 0 <= i < |left| ==> left[i] == i
    ensures Keeping(apart, now, now, s, at, left, sps, 0, 0)
  {
    AllWithout(at, 0);
    forall q | 0 <= q < |s| ensures q in left {
      assert left[q] == q;
    }
  }

  lemma KeepingStep(apart: bool, now: seq<Mode>, now': seq<Mode>, before: seq<Mode>, s: seq<Path>, at: seq<int>,
                    left: seq<int>, sps: seq<Option<Path>>, nsps: int, c: nat, q: int, left': seq<int>)
    requires Keeping(apart, now, before, s, at, left, sps, nsps, c) && c < |now| && IsTaken(q, left, left')
    requires StayOrLeave(now', now) && (apart ==> now' == now[c := now'[c]])
    requires -1 <= q < |s| && Settled(now'[c], now[c], s, q)
    requires q < 0 ==> left' == left && IsGone(now[c].path, s, left)
    ensures |sps| == |now|
    ensures q < 0 ==> Keeping(apart, now', before, s, at, left, sps, nsps, c + 1)
    ensures q >= 0 ==> Keeping(apart, now', before, s, at[c := q], left', sps[c := Some(s[q])], nsps + 1, c + 1)
  {
    if apart {
      SettleStep(now, before, s, at, left, c, now'[c], q);
    }
    if q >= 0 {
      GiveStep(sps, s, at, left, c, q, left');
    } else {
      assert at[c := q] == at;
    }
    hide AllSettled, IsTaken, IsGone, Given, Apart, Covered, Without;
  }

  lemma HoldsAll(s: seq<Path>, left: seq<int>)
    requires |left| == |s| && forall i :: 0 <= i < |left| ==> left[i] == i
    ensures Holds(s, |s|, s, left)
  {
  }

  // Every client in interleaved mode looks for its path.
  method KeepPaths(clients: seq<SCIONClient>, ps: array<Path>)
    returns (sps: seq<Option<Path>>, nsps: nat, n: nat, ghost at: seq<int>, ghost left: seq<int>)
    requires FiltersValid(clients)
    modifies ps, clients, Filters(clients)
    ensures FiltersValid(clients)
    ensures Holds(ps[..], n, old(ps[..]), left) && nsps + n == ps.Length
    ensures Keeping(AreClients(clients), Modes(clients), old(Modes(clients)), old(ps[..]), at, left, sps, nsps,
                    |clients|)
  {
    hide Holds, Keeping, Settled, FiltersValid, AreClients, IsGone, IsTaken, StayOrLeave, Modes;
    ghost var s, before, apart := ps[..], Modes(clients), AreClients(clients);
    n, nsps := ps.Length, 0;
    sps := seq(|clients|, _ => None);
    at, left := seq(|clients|, _ => -1), seq(n, i => i);
    KeepingNone(apart, before, s, at, left, sps);
    HoldsAll(s, left);
    var i := 0;
    while i < |clients|
      invariant 0 <= i <= |clients| == |sps| == |at| && FiltersValid(clients)
      invariant Holds(ps[..], n, s, left) && nsps + n == ps.Length
      invariant Keeping(apart, Modes(clients), before, s, at, left, sps, nsps, i)
    {
      ghost var now := Modes(clients);
      var p;
      ghost var q, left';
      p, n, q, left' := KeepPath(clients, i, clients[i], ps, n, s, left);
      KeepingStep(apart, now, Modes(clients), before, s, at, left, sps, nsps, i, q, left');
      if p.Some? {
        sps := sps[i := p];
        nsps := nsps + 1;
        at := at[i := q];
      }
      left := left';
      i := i + 1;
    }
  }

  /* ---- Clients that get new paths ---- */

  lemma HoldsSampled(ps: seq<Path>, n: nat, s: seq<Path>, left: seq<int>, ps': seq<Path>, k: nat, d: Draws)
    returns (left': seq<int>)
    requires Holds(ps, n, s, left) && Sampled(ps', ps, k, d) && k + d.Count() == n
    ensures Holds(ps', k, s, left') && forall r :: r in left' ==> r in left
    ensures AreDraws(k, d) && forall l :: 0 <= l < k ==> 0 <= Slots(k, d)[l] < n && left'[l] == left[Slots(k, d)[l]]
  {
    SlotsAreDistinct(k, d);
    left' := seq(k, l requires 0 <= l < k => left[Slots(k, d)[l]]);
  }

  ghost predicate IsAdded(q: int, at: seq<int>, at': seq<int>) {
    q in at' && forall r :: r in at && r >= 0 ==> r in at'
  }

  // Client i gets path j of those drawn.
  lemma AssignStep(sps: seq<Option<Path>>, s: seq<Path>, at: seq<int>, left: seq<int>, ps: seq<Path>, n: nat,
                   i: nat, j: nat)
    requires Given(sps, s, at) && Holds(ps, n, s, left) && j < n && Apart(at, left[j..])
    requires i < |at| && at[i] < 0 && Without(at, i) == Without(at, 0)
    ensures Given(sps[i := Some(ps[j])], s, at[i := left[j]])
    ensures Apart(at[i := left[j]], left[j + 1..])
    ensures Without(at[i := left[j]], 0) == Without(at, 0) - 1 == Without(at[i := left[j]], i)
    ensures IsAdded(left[j], at, at[i := left[j]])
  {
    var at' := at[i := left[j]];
    assert at'[i] == left[j];
    forall r | r in at && r >= 0 ensures r in at' {
      var k :| 0 <= k < |at| && at[k] == r;
      assert at'[k] == r;
    }
    WithoutGiven(at, 0, i, left[j]);
    WithoutGiven(at, i, i, left[j]);
    assert left[j..][0] == left[j];
    forall r | r in left[j + 1..] ensures r in left[j..] && r != left[j] {
      var l :| 0 <= l < |left[j + 1..]| && left[j + 1..][l] == r;
      assert left[j..][l + 1] == r;
    }
  }

  // Later positions extend earlier ones.
  ghost predicate Extends(at': seq<int>, at: seq<int>) {
    |at'| == |at| && forall i :: 0 <= i < |at| && at[i] >= 0 ==> at'[i] == at[i]
  }

  // The first n of ps go to the clients without a path, in order.
  method AssignPaths(sps0: seq<Option<Path>>, ps: array<Path>, n: nat, nsps0: nat,
                     ghost s: seq<Path>, ghost at0: seq<int>, ghost left: seq<int>)
    returns (sps: seq<Option<Path>>, nsps: nat, ghost at: seq<int>)
    requires Given(sps0, s, at0) && Holds(ps[..], n, s, left) && Apart(at0, left)
    requires Without(at0, 0) + nsps0 == |at0| && n <= Without(at0, 0)
    ensures Given(sps, s, at) && Extends(at, at0)
    ensures nsps == nsps0 + n && Without(at, 0) + nsps == |at|
    ensures forall l :: 0 <= l < n ==> left[l] in at
  {
    sps, nsps, at := sps0, nsps0, at0;
    var i, j := 0, 0;
    assert left[0..] == left;
    while j != n
      invariant 0 <= j <= n && 0 <= i <= |at| == |sps|
      invariant Given(sps, s, at) && Apart(at, left[j..]) && Extends(at, at0)
      invariant nsps == nsps0 + j && Without(at, 0) + nsps == |at| && Without(at, i) == Without(at, 0)
      invariant forall l :: 0 <= l < j ==> left[l] >= 0 && left[l] in at
    {
      while sps[i].Some?
        invariant 0 <= i < |at| && Without(at, i) == Without(at, 0) > 0
        decreases |at| - i
      {
        i := i + 1;
      }
      AssignStep(sps, s, at, left, ps[..], n, i, j);
      sps, at := sps[i := Some(ps[j])], at[i := left[j]];
      nsps := nsps + 1;
      j := j + 1;
    }
  }

  /* ---- Path assignment ---- */

  datatype Outcome = Assigned(sps: seq<Option<Path>>, nsps: nat) | NoPath | NoRandomness

  // Clients that got their path again stay in interleaved mode, with their state, and only
  // those. Another one's path was given to an earlier client wherever it was in the list.
  ghost predicate ModesKept(now: seq<Mode>, before: seq<Mode>, s: seq<Path>, at: seq<int>) {
    && |now| == |before| == |at|
    && (forall i :: 0 <= i < |at| && now[i] != Mode(None, false, []) ==>
          && 0 <= at[i] < |s| && now[i] == before[i]
          && now[i].path.Some? && s[at[i]].fingerprint == now[i].path)
    && (forall i, q ::
          0 <= i < |at| && now[i] != before[i] && before[i].path.Some? && 0 <= q < |s|
          && s[q].fingerprint == before[i].path
          ==> q in at[..i])
  }

  // The positions in free are different, and none of them is that of a client that kept
  // its path.
  ghost predicate IsFree(free: seq<int>, now: seq<Mode>, at: seq<int>) {
    && |now| == |at|
    && (forall j, k :: 0 <= j < k < |free| ==> free[j] != free[k])
    && (forall i :: 0 <= i < |at| && now[i].path.Some? ==> at[i] !in free)
  }

  lemma SettledKeepsModes(now: seq<Mode>, before: seq<Mode>, s: seq<Path>, at: seq<int>, at': seq<int>)
    requires AllSettled(now, before, s, at, |now|) && Extends(at', at)
    ensures ModesKept(now, before, s, at')
  {
    forall i, q | 0 <= i < |at| && now[i] != before[i] && before[i].path.Some? && 0 <= q < |s|
                  && s[q].fingerprint == before[i].path
      ensures q in at'[..i]
    {
      var k :| 0 <= k < i && at[..i][k] == q;
      assert at'[..i][k] == q;
    }
  }

  // A client whose path is listed, and is not that of an earlier client, gets it and stays in
  // its mode.
  ghost predicate ListedStay(now: seq<Mode>, before: seq<Mode>, s: seq<Path>, at: seq<int>) {
    && |now| == |before| == |at|
    && forall i, q :: 0 <= i < |now| && 0 <= q < |s| && before[i].path.Some? && s[q].fingerprint == before[i].path ==>
        (forall j :: 0 <= j < i ==> before[j].path != before[i].path) ==>
        now[i] == before[i] && 0 <= at[i] < |s| && s[at[i]].fingerprint == before[i].path
  }

  lemma ListedIsNotTaken(now: seq<Mode>, before: seq<Mode>, s: seq<Path>, at: seq<int>, i: nat, q: nat)
    requires AllSettled(now, before, s, at, |now|) && i < |now| && q < |s|
    requires before[i].path.Some? && s[q].fingerprint == before[i].path
    requires forall j :: 0 <= j < i ==> before[j].path != before[i].path
    ensures q !in at[..i]
  {
    forall j | 0 <= j < i ensures at[..i][j] != q {
      assert at[j] >= 0 ==> Settled(now[j], before[j], s, at[j]);
    }
  }

  lemma SettledStay(now: seq<Mode>, before: seq<Mode>, s: seq<Path>, at: seq<int>, at': seq<int>)
    requires AllSettled(now, before, s, at, |now|) && Extends(at', at)
    ensures ListedStay(now, before, s, at')
  {
    forall i, q | 0 <= i < |now| && 0 <= q < |s| && before[i].path.Some? && s[q].fingerprint == before[i].path
                  && forall j :: 0 <= j < i ==> before[j].path != before[i].path
      ensures now[i] == before[i] && 0 <= at'[i] < |s| && s[at'[i]].fingerprint == before[i].path
    {
      ListedIsNotTaken(now, before, s, at, i, q);
      assert Settled(now[i], before[i], s, at[i]);
    }
  }

  lemma OldPathsStay(now: seq<Mode>, s: seq<Path>, at: seq<int>, at': seq<int>, ps: seq<Path>, free: seq<int>)
    requires OnOldPaths(now, s, at, |now|) && Extends(at', at)
    requires Holds(ps, |free|, s, free) && Apart(at, free)
    ensures OnOldPaths(now, s, at', |now|) && IsFree(free, now, at')
  {
  }

  // The k positions that are drawn of those in free are used.
  ghost predicate DrawnFrom(at: seq<int>, free: seq<int>, k: nat, d: Draws) {
    && AreDraws(k, d) && k + d.Count() == |free|
    && forall l :: 0 <= l < k ==> 0 <= Slots(k, d)[l] < |free| && free[Slots(k, d)[l]] in at
  }

  // The clients without a path get randomly chosen ones of those left.
  method DrawPaths(sps0: seq<Option<Path>>, nsps0: nat, ps: array<Path>, n: nat, source: seq<nat>,
                   ghost s: seq<Path>, ghost at0: seq<int>, ghost left: seq<int>)
    returns (r: Outcome, ghost at: seq<int>, ghost d: Draws)
    requires Given(sps0, s, at0) && Holds(ps[..], n, s, left) && Apart(at0, left)
    requires |sps0| == |at0| == Without(at0, 0) + nsps0
    modifies ps
    ensures r.NoRandomness? ==> |source| < n
    ensures r.NoPath? ==> |at0| == 0 || nsps0 + n == 0
    ensures r.Assigned? ==>
      && Given(r.sps, s, at) && Extends(at, at0)
      && r.nsps == (if |at| < nsps0 + n then |at| else nsps0 + n) > 0
      && Without(at, 0) + r.nsps == |at|
      && r.nsps >= nsps0 && DrawnFrom(at, left, r.nsps - nsps0, d)
  {
    at, d := at0, Empty;
    ghost var held := ps[..];
    var k, ok := Sample(ps, |sps0| - nsps0, n, source);
    if !ok {
      return NoRandomness, at, d;
    }
    if nsps0 + k == 0 {
      return NoPath, at, d;
    }
    d := DrawsFrom(k, source, n - k);
    ghost var left' := HoldsSampled(held, n, s, left, ps[..], k, d);
    assert |left| == n == k + d.Count();
    hide Given, Holds, Apart, Without, Sampled, AreDraws, Slots;
    var sps, nsps;
    sps, nsps, at := AssignPaths(sps0, ps, k, nsps0, s, at, left');
    r := Assigned(sps, nsps);
  }

  lemma KeepingGives(apart: bool, now: seq<Mode>, before: seq<Mode>, s: seq<Path>, at: seq<int>, left: seq<int>,
                     sps: seq<Option<Path>>, nsps: int, ps: seq<Path>, n: nat)
    requires Keeping(apart, now, before, s, at, left, sps, nsps, |now|) && Holds(ps, n, s, left)
    ensures |sps| == |at| == |now| == Without(at, 0) + nsps && |left| == n
    ensures OnOldPaths(now, s, at, |now|) && Given(sps, s, at) && Apart(at, left)
    ensures apart ==> AllSettled(now, before, s, at, |now|)
  {
    hide Without, AllSettled;
  }

  // The first part of MeasureClockOffsetSCION: each client gets its path, as long as
  // there are paths, and no two clients the same position in the list of paths. At first
  // kept clients get their paths again, and only those are in interleaved mode afterwards;
  // the others get what is drawn of the positions in free, which are those that are left.
  method GivePaths(clients: seq<SCIONClient>, ps: array<Path>, source: seq<nat>)
    returns (r: Outcome, ghost at: seq<int>, ghost kept: nat, ghost free: seq<int>, ghost d: Draws)
    requires FiltersValid(clients)
    modifies ps, clients, Filters(clients)
    ensures FiltersValid(clients)
    ensures r.NoRandomness? ==> |source| < ps.Length
    ensures r.NoPath? ==> |clients| == 0 || ps.Length == 0
    ensures r.Assigned? ==>
      && Given(r.sps, old(ps[..]), at) && |at| == |clients|
      && r.nsps == (if |clients| < ps.Length then |clients| else ps.Length) > 0
      && Without(at, 0) + r.nsps == |clients|
      && OnOldPaths(Modes(clients), old(ps[..]), at, |clients|)
      && (AreClients(clients) ==> ModesKept(Modes(clients), old(Modes(clients)), old(ps[..]), at))
      && kept + |free| == ps.Length && kept <= r.nsps && DrawnFrom(at, free, r.nsps - kept, d)
      && IsFree(free, Modes(clients), at)
      && (AreClients(clients) ==> ListedStay(Modes(clients), old(Modes(clients)), old(ps[..]), at))
  {
    hide FiltersValid, AreClients, AllSettled, OnOldPaths, Given, Apart, Holds, Keeping, Extends, ModesKept, IsFree;
    hide Without, DrawnFrom, Modes, ListedStay;
    ghost var s, before := ps[..], Modes(clients);
    var sps, nsps, n;
    sps, nsps, n, at, free := KeepPaths(clients, ps);
    kept := nsps;
    ghost var now, held, at0 := Modes(clients), ps[..], at;
    KeepingGives(AreClients(clients), now, before, s, at, free, sps, nsps, held, n);
    r, at, d := DrawPaths(sps, nsps, ps, n, source, s, at, free);
    assert Modes(clients) == now;
    if r.Assigned? {
      OldPathsStay(now, s, at0, at, held, free);
      if AreClients(clients) {
        SettledKeepsModes(now, before, s, at0, at);
        SettledStay(now, before, s, at0, at);
      }
    }
  }
}
