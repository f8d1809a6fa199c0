/** What the server's timestamp store does, without heap, buffers or positions: a map
    from client to a map from receive time to transmit time, with a bound on the receive
    times of each client (core/server/server.go). */
module StoreSpec {
  import opened NtpTime

  // The server compares client addresses and uses them as keys, nothing else.
  type ClientId(==, 0, !new)

  const TSS_CAP: nat := 0x10_0000
  const TSS_ITEM_CAP: nat := 8

  type Stamps = map<Time64, Time64>

  // One client's stamps by receive time, and its priority in the queue.
  datatype Entry = Entry(stamps: Stamps, qval: Time64)

  type Store = map<ClientId, Entry>

  // The header fields of a request that the store looks at, and those it answers.
  datatype Request = Request(origin: Time64, receive: Time64, transmit: Time64)
  datatype Response = Response(reference: Time64, origin: Time64, receive: Time64, transmit: Time64)

  /* ---- Invariant ---- */

  ghost predicate Bounds(q: Time64, m: Stamps) {
    forall k | k in m :: !q.Before(k)
  }

  ghost predicate IsGreatest(q: Time64, m: Stamps) {
    q in m && Bounds(q, m)
  }

  ghost predicate EntryInv(e: Entry) {
    1 <= |e.stamps| <= TSS_ITEM_CAP && Bounds(e.qval, e.stamps)
  }

  ghost predicate StoreInv(s: Store) {
    |s| <= TSS_CAP && forall c | c in s :: EntryInv(s[c])
  }

  /* ---- Assigned times ---- */

  // The first instant from t on whose timestamp is not used yet.
  ghost predicate IsFirstFree(used: set<Time64>, t: int, r: int) {
    && t <= r
    && Time64FromTime(r) !in used
    && forall u :: t <= u < r ==> Time64FromTime(u) in used
  }

  ghost function AssignedTx(rxt0: int, rxt: int, now: int): int {
    if rxt != rxt0 && rxt >= now then rxt + 1 else now
  }

  // How often the transmit time was moved on: at each move of the receive time that reached
  // the reading of the clock.
  ghost function TxMoves(rxt0: int, rxt: int, now: int): int {
    if rxt < now then 0 else if now <= rxt0 then rxt - rxt0 else if rxt == rxt0 then 0 else rxt - now + 1
  }

  /* ---- A request ---- */

  // All entries but the one with the least receive time.
  ghost function WithoutLeast(m: Stamps): Stamps {
    map k | k in m && exists j :: j in m && j.Before(k) :: m[k]
  }

  // The stamps after a request: the pair replaces the one the request refers to; if it
  // refers to none, it is added, in place of the oldest one if the buffer is full.
  ghost function Recorded(m: Stamps, origin: Time64, rx: Time64, tx: Time64): Stamps {
    if origin in m then (m - {origin})[rx := tx]
    else if |m| == TSS_ITEM_CAP then WithoutLeast(m)[rx := tx]
    else m[rx := tx]
  }

  ghost function RaisedQval(e: Entry, rx: Time64): Time64 {
    if forall k | k in e.stamps :: k.Before(rx) then rx else e.qval
  }

  // A request is served in interleaved mode if it carries two different times and its
  // origin time is a receive time in the store.
  ghost predicate ServedInterleaved(s: Store, c: ClientId, req: Request) {
    req.receive != req.transmit && c in s && req.origin in s[c].stamps
  }

  ghost function Answer(s: Store, c: ClientId, req: Request, rx: Time64, tx: Time64): Response {
    if ServedInterleaved(s, c, req) then Response(tx, req.receive, rx, s[c].stamps[req.origin])
    else Response(tx, req.transmit, rx, tx)
  }

  ghost predicate IsLeastClient(s: Store, v: ClientId) {
    v in s && forall d | d in s :: !s[d].qval.Before(s[v].qval)
  }

  ghost predicate Admitted(s: Store, c: ClientId, rx: Time64, tx: Time64, s': Store) {
    s' == s[c := Entry(map[rx := tx], rx)]
  }

  // A new client in a full store: either a client with the least priority goes, if the
  // newcomer is not before it, or the newcomer is not stored.
  ghost predicate AdmittedToFull(s: Store, c: ClientId, rx: Time64, tx: Time64, s': Store) {
    || (exists v :: IsLeastClient(s, v) && !rx.Before(s[v].qval) && Admitted(s - {v}, c, rx, tx, s'))
    || (s' == s && forall d | d in s :: rx.Before(s[d].qval))
  }

  // A request req of client c, received at rxt0, with the clock at now: the times
  // assigned to it are rxt and txt.
  ghost predicate RequestStep(s: Store, c: ClientId, req: Request, rxt0: int, now: int,
                              s': Store, rxt: int, txt: int, resp: Response)
  {
    var rx, tx := Time64FromTime(rxt), Time64FromTime(txt);
    && resp == Answer(s, c, req, rx, tx)
    && txt == AssignedTx(rxt0, rxt, now)
    && (c in s ==>
          && IsFirstFree(s[c].stamps.Keys, rxt0, rxt)
          && s' == s[c := Entry(Recorded(s[c].stamps, req.origin, rx, tx), RaisedQval(s[c], rx))])
    && (c !in s ==>
          && rxt == rxt0
          && if |s| < TSS_CAP then Admitted(s, c, rx, tx, s') else AdmittedToFull(s, c, rx, tx, s'))
  }

  /* ---- An update of the transmit time ---- */

  ghost function ForcedAfter(rxt: int, txt: int): int {
    if rxt < txt then txt else rxt + 1
  }

  // The priority after the stamps with receive time rx were removed.
  ghost predicate IsLoweredQval(e: Entry, rx: Time64, q: Time64) {
    if IsGreatest(rx, e.stamps) then IsGreatest(q, e.stamps - {rx}) else q == e.qval
  }

  // An update for the response of client c that was received at rxt, with the transmit
  // time txt0. No later time than the recorded one is known if the two are equal.
  ghost predicate UpdateStep(s: Store, c: ClientId, rxt: int, txt0: int, s': Store, txt: int) {
    var rx, tx := Time64FromTime(rxt), Time64FromTime(txt);
    && txt == ForcedAfter(rxt, txt0)
    && if c !in s || rx !in s[c].stamps then s' == s
       else if s[c].stamps[rx] != tx then s' == s[c := s[c].(stamps := s[c].stamps[rx := tx])]
       else if |s[c].stamps| == 1 then s' == s - {c}
       else exists q :: IsLoweredQval(s[c], rx, q) && s' == s[c := Entry(s[c].stamps - {rx}, q)]
  }

  /* ---- The search for a free receive time ends ---- */

  // Different instants have different timestamps, so a run of used instants is no longer
  // than the set of used timestamps.
  lemma {:induction false} RunIsShort(used: set<Time64>, t: int, n: nat)
    requires n <= TSS_ITEM_CAP + 1
    requires forall u :: t <= u < t + n ==> Time64FromTime(u) in used
    ensures n <= |used|
  {
    if n > 0 {
      var x := Time64FromTime(t + n - 1);
      assert x in used;
      forall u | t <= u < t + n - 1 ensures Time64FromTime(u) in used - {x} {
        Time64Injective(u, t + n - 1);
      }
      RunIsShort(used - {x}, t, n - 1);
    }
  }

  // The first free instant is at most eight nanoseconds away.
  lemma FirstFreeIsNear(used: set<Time64>, t: int, r: int)
    requires |used| <= TSS_ITEM_CAP && IsFirstFree(used, t, r)
    ensures r - t <= |used|
  {
    RunIsShort(used, t, if r - t <= TSS_ITEM_CAP then r - t else TSS_ITEM_CAP + 1);
  }

  /* ---- What the steps keep ---- */

  lemma MapRemoveSize<K, V>(m: map<K, V>, k: K)
    ensures |m - {k}| == if k in m then |m| - 1 else |m|
  {
    assert (m - {k}).Keys == m.Keys - {k};
    assert |m.Keys| == |m| && |(m - {k}).Keys| == |m - {k}|;
  }

  lemma MapUpdateSize<K, V>(m: map<K, V>, k: K, v: V)
    ensures |m[k := v]| == if k in m then |m| else |m| + 1
  {
    assert m[k := v].Keys == m.Keys + {k};
    assert |m.Keys| == |m| && |m[k := v].Keys| == |m[k := v]|;
  }

  // A nonempty map has a least receive time.
  lemma {:induction false} LeastExists(m: Stamps) returns (l: Time64)
    requires m != map[]
    ensures l in m && forall k | k in m :: !k.Before(l)
    decreases |m|
  {
    var x :| x in m;
    MapRemoveSize(m, x);
    if m - {x} == map[] {
      assert forall k | k in m :: k == x || k in m - {x};
      l := x;
    } else {
      var y := LeastExists(m - {x});
      l := if x.Before(y) then x else y;
      assert forall k | k in m :: k == x || k in m - {x};
    }
  }

  // WithoutLeast removes exactly one receive time, and none is before it.
  lemma WithoutLeastIs(m: Stamps, l: Time64)
    requires l in m && forall k | k in m :: !k.Before(l)
    ensures WithoutLeast(m) == m - {l} && |WithoutLeast(m)| == |m| - 1
  {
    forall k | k in m && k != l ensures l.Before(k) {
      if k.Ordinal() == l.Ordinal() {
        OrdinalInjective(k, l);
      }
    }
    MapRemoveSize(m, l);
  }

  lemma RecordedSize(m: Stamps, origin: Time64, rx: Time64, tx: Time64)
    requires |m| <= TSS_ITEM_CAP && rx !in m
    ensures 1 <= |Recorded(m, origin, rx, tx)| <= TSS_ITEM_CAP
    ensures Recorded(m, origin, rx, tx).Keys <= m.Keys + {rx}
  {
    if origin in m {
      MapRemoveSize(m, origin);
      MapUpdateSize(m - {origin}, rx, tx);
    } else if |m| == TSS_ITEM_CAP {
      var l := LeastExists(m);
      WithoutLeastIs(m, l);
      MapUpdateSize(WithoutLeast(m), rx, tx);
    } else {
      MapUpdateSize(m, rx, tx);
    }
  }

  lemma RecordedBounds(e: Entry, origin: Time64, rx: Time64, tx: Time64)
    requires EntryInv(e) && rx !in e.stamps
    ensures EntryInv(Entry(Recorded(e.stamps, origin, rx, tx), RaisedQval(e, rx)))
  {
    RecordedSize(e.stamps, origin, rx, tx);
  }

  lemma AdmissionKeepsInv(s: Store, c: ClientId, rx: Time64, tx: Time64, s': Store)
    requires |s| < TSS_CAP && forall d | d in s :: EntryInv(s[d])
    requires Admitted(s, c, rx, tx, s')
    ensures StoreInv(s')
  {
    MapUpdateSize(s, c, s'[c]);
  }

  // Every request keeps the invariant.
  lemma RequestKeepsInv(s: Store, c: ClientId, req: Request, rxt0: int, now: int,
                        s': Store, rxt: int, txt: int, resp: Response)
    requires StoreInv(s)
    requires RequestStep(s, c, req, rxt0, now, s', rxt, txt, resp)
    ensures StoreInv(s')
  {
    var rx, tx := Time64FromTime(rxt), Time64FromTime(txt);
    if c in s {
      RecordedBounds(s[c], req.origin, rx, tx);
      MapUpdateSize(s, c, s'[c]);
    } else if |s| < TSS_CAP {
      AdmissionKeepsInv(s, c, rx, tx, s');
    } else if s' != s {
      var v :| IsLeastClient(s, v) && !rx.Before(s[v].qval) && Admitted(s - {v}, c, rx, tx, s');
      MapRemoveSize(s, v);
      AdmissionKeepsInv(s - {v}, c, rx, tx, s');
    }
  }

  // Every update keeps the invariant, and ends with a transmit time after rxt.
  lemma UpdateKeepsInv(s: Store, c: ClientId, rxt: int, txt0: int, s': Store, txt: int)
    requires StoreInv(s)
    requires UpdateStep(s, c, rxt, txt0, s', txt)
    ensures StoreInv(s') && rxt < txt
  {
    var rx, tx := Time64FromTime(rxt), Time64FromTime(txt);
    if c in s && rx in s[c].stamps {
      MapRemoveSize(s, c);
      MapRemoveSize(s[c].stamps, rx);
      if s[c].stamps[rx] != tx {
        MapUpdateSize(s[c].stamps, rx, tx);
      }
      if c in s' {
        MapUpdateSize(s, c, s'[c]);
      }
    }
  }

  /* ---- What a request promises ---- */

  // u is from t on, and after lo if it has to be.
  ghost predicate IsFrom(u: int, t: int, lo: int, after: bool) {
    t <= u && (after ==> lo < u)
  }

  // r is the first such time.
  ghost predicate IsFirstFrom(r: int, t: int, lo: int, after: bool) {
    IsFrom(r, t, lo, after) && forall u :: IsFrom(u, t, lo, after) ==> r <= u
  }

  // The transmit time is the reading of the clock, or the first time after the receive time
  // if that had to be moved on and has reached the clock.
  lemma AssignedTxIs(rxt0: int, rxt: int, now: int)
    ensures IsFirstFrom(AssignedTx(rxt0, rxt, now), now, rxt, rxt != rxt0)
    ensures AssignedTx(rxt0, rxt, now) == now || AssignedTx(rxt0, rxt, now) == rxt + 1
    ensures rxt0 <= rxt ==> (rxt < AssignedTx(rxt0, rxt, now) <==> rxt != rxt0 || rxt0 < now)
  {
  }

  // It is moved on for every receive time on the way that is not before the clock.
  lemma {:induction false} TxMovesAre(rxt0: int, rxt: int, now: int)
    requires rxt0 <= rxt
    ensures TxMoves(rxt0, rxt, now) == |Passed(rxt0, rxt, now)|
    decreases rxt - rxt0
  {
    if rxt0 < rxt {
      TxMovesAre(rxt0, rxt - 1, now);
      var s := Passed(rxt0, rxt - 1, now);
      assert Passed(rxt0, rxt, now) == if now <= rxt then s + {rxt} else s;
    } else {
      assert Passed(rxt0, rxt, now) == {};
    }
  }

  ghost function Passed(rxt0: int, rxt: int, now: int): set<int> {
    set u | rxt0 < u <= rxt && IsFrom(u, now, rxt0, true)
  }

  // The times of a request: the receive time is the first one that is not stored for the
  // client.
  lemma RequestTimes(s: Store, c: ClientId, req: Request, rxt0: int, now: int,
                     s': Store, rxt: int, txt: int, resp: Response)
    requires RequestStep(s, c, req, rxt0, now, s', rxt, txt, resp)
    ensures rxt0 <= rxt && (c !in s ==> rxt == rxt0)
    ensures c in s ==> Time64FromTime(rxt) !in s[c].stamps
    ensures forall u :: rxt0 <= u < rxt ==> c in s && Time64FromTime(u) in s[c].stamps
    ensures IsFirstFrom(txt, now, rxt, rxt != rxt0) && (txt == now || (rxt != rxt0 && txt == rxt + 1))
  {
    AssignedTxIs(rxt0, rxt, now);
  }

  // The response: in interleaved mode, which takes a request with two different times and a
  // stored pair, it has the transmit time of that pair and refers to the receive time in the
  // request; otherwise it has the time just assigned and refers to the transmit time.
  lemma RequestAnswer(s: Store, c: ClientId, req: Request, rxt0: int, now: int,
                      s': Store, rxt: int, txt: int, resp: Response)
    requires RequestStep(s, c, req, rxt0, now, s', rxt, txt, resp)
    ensures resp.receive == Time64FromTime(rxt) && resp.reference == Time64FromTime(txt)
    ensures if c in s && req.origin in s[c].stamps && req.receive != req.transmit
            then resp.origin == req.receive && resp.transmit == s[c].stamps[req.origin]
            else resp.origin == req.transmit && resp.transmit == Time64FromTime(txt)
  {
  }

  // The priority is raised to the receive time if that is after all stored ones.
  lemma RequestPriority(s: Store, c: ClientId, req: Request, rxt0: int, now: int,
                        s': Store, rxt: int, txt: int, resp: Response)
    requires RequestStep(s, c, req, rxt0, now, s', rxt, txt, resp) && c in s'
    ensures var rx := Time64FromTime(rxt);
      s'[c].qval == if c in s && exists k :: k in s[c].stamps && !k.Before(rx) then s[c].qval else rx
  {
    var rx, tx := Time64FromTime(rxt), Time64FromTime(txt);
    if c !in s && |s| >= TSS_CAP {
      var v :| IsLeastClient(s, v) && !rx.Before(s[v].qval) && Admitted(s - {v}, c, rx, tx, s');
    }
  }

  // A request changes its own client only; another client goes only from a full store,
  // and then it has the least priority of all and is not after the newcomer.
  lemma RequestTouches(s: Store, c: ClientId, req: Request, rxt0: int, now: int,
                       s': Store, rxt: int, txt: int, resp: Response, d: ClientId)
    requires RequestStep(s, c, req, rxt0, now, s', rxt, txt, resp)
    requires d != c
    ensures d in s' ==> d in s && s'[d] == s[d]
    ensures d in s && d !in s' ==>
              && c !in s && |s| >= TSS_CAP && c in s'
              && !Time64FromTime(rxt).Before(s[d].qval)
              && forall e | e in s :: !s[e].qval.Before(s[d].qval)
    ensures c !in s' ==> s' == s && |s| >= TSS_CAP && forall e | e in s :: Time64FromTime(rxt).Before(s[e].qval)
  {
    var rx, tx := Time64FromTime(rxt), Time64FromTime(txt);
    if c !in s && |s| >= TSS_CAP && s' != s {
      var v :| IsLeastClient(s, v) && !rx.Before(s[v].qval) && Admitted(s - {v}, c, rx, tx, s');
    }
  }

  // At most one client goes, so a full store stays full.
  lemma RequestKeepsFull(s: Store, c: ClientId, req: Request, rxt0: int, now: int,
                         s': Store, rxt: int, txt: int, resp: Response)
    requires RequestStep(s, c, req, rxt0, now, s', rxt, txt, resp)
    ensures |s| == TSS_CAP ==> |s'| == TSS_CAP
  {
    var rx, tx := Time64FromTime(rxt), Time64FromTime(txt);
    if c in s {
      MapUpdateSize(s, c, s'[c]);
    } else if |s| == TSS_CAP && s' != s {
      var v :| IsLeastClient(s, v) && !rx.Before(s[v].qval) && Admitted(s - {v}, c, rx, tx, s');
      MapRemoveSize(s, v);
      MapUpdateSize(s - {v}, c, s'[c]);
    }
  }

  // A request replaces a pair if it refers to one or if the buffer is full.
  ghost predicate KeepsSize(m: Stamps, origin: Time64) {
    origin in m || |m| == TSS_ITEM_CAP
  }

  // The pair of a request is in the store afterwards, unless its client is not; the
  // other pairs are old ones, and at most one of those has gone.
  lemma RequestRecords(s: Store, c: ClientId, req: Request, rxt0: int, now: int,
                       s': Store, rxt: int, txt: int, resp: Response)
    requires StoreInv(s) && c in s'
    requires RequestStep(s, c, req, rxt0, now, s', rxt, txt, resp)
    ensures var rx := Time64FromTime(rxt);
      && rx in s'[c].stamps && s'[c].stamps[rx] == Time64FromTime(txt)
      && (c in s ==> rx !in s[c].stamps)
      && (forall k | k in s'[c].stamps && k != rx :: c in s && k in s[c].stamps && s'[c].stamps[k] == s[c].stamps[k])
      && (c in s && req.origin in s[c].stamps ==> req.origin !in s'[c].stamps)
      && (c in s && req.origin !in s[c].stamps ==>
            forall k, j | k in s[c].stamps && k !in s'[c].stamps && j in s[c].stamps :: !j.Before(k))
      && (c in s ==> |s'[c].stamps| == |s[c].stamps| + (if KeepsSize(s[c].stamps, req.origin) then 0 else 1))
  {
    var rx, tx := Time64FromTime(rxt), Time64FromTime(txt);
    if c in s {
      var m := s[c].stamps;
      if req.origin in m {
        MapRemoveSize(m, req.origin);
        MapUpdateSize(m - {req.origin}, rx, tx);
      } else if |m| == TSS_ITEM_CAP {
        var l := LeastExists(m);
        WithoutLeastIs(m, l);
        MapUpdateSize(m - {l}, rx, tx);
      } else {
        MapUpdateSize(m, rx, tx);
      }
    } else if |s| >= TSS_CAP && s' != s {
      var v :| IsLeastClient(s, v) && !rx.Before(s[v].qval) && Admitted(s - {v}, c, rx, tx, s');
    }
  }

  // Where the pairs of the store come from after a request.
  lemma RequestPair(s: Store, c: ClientId, req: Request, rxt0: int, now: int,
                    s': Store, rxt: int, txt: int, resp: Response, d: ClientId, k: Time64)
    requires StoreInv(s) && d in s' && k in s'[d].stamps
    requires RequestStep(s, c, req, rxt0, now, s', rxt, txt, resp)
    ensures if d == c && k == Time64FromTime(rxt) then s'[d].stamps[k] == Time64FromTime(txt)
            else d in s && k in s[d].stamps && s'[d].stamps[k] == s[d].stamps[k]
  {
    if d == c {
      RequestRecords(s, c, req, rxt0, now, s', rxt, txt, resp);
    } else {
      RequestTouches(s, c, req, rxt0, now, s', rxt, txt, resp, d);
    }
  }

  /* ---- When the priority is exact ---- */

  // The priority is the greatest receive time of the client.
  ghost predicate Exact(e: Entry) {
    IsGreatest(e.qval, e.stamps)
  }

  // A request keeps the priority exact, except if it overwrites the pair with the
  // greatest receive time by one with an earlier receive time.
  lemma RequestKeepsExact(s: Store, c: ClientId, req: Request, rxt0: int, now: int,
                          s': Store, rxt: int, txt: int, resp: Response)
    requires StoreInv(s) && c in s && Exact(s[c])
    requires RequestStep(s, c, req, rxt0, now, s', rxt, txt, resp)
    ensures c in s'
    ensures Exact(s'[c]) <==> !(req.origin == s[c].qval && Time64FromTime(rxt).Before(s[c].qval))
  {
    var e, rx, tx := s[c], Time64FromTime(rxt), Time64FromTime(txt);
    if rx.Ordinal() == e.qval.Ordinal() {
      OrdinalInjective(rx, e.qval);
    }
    if forall k | k in e.stamps :: k.Before(rx) {
      assert Bounds(rx, s'[c].stamps);
    } else {
      assert !e.qval.Before(rx) || exists k | k in e.stamps :: !k.Before(rx);
      KeepsGreatest(e, req.origin, rx, tx);
    }
  }

  lemma KeepsGreatest(e: Entry, origin: Time64, rx: Time64, tx: Time64)
    requires EntryInv(e) && Exact(e) && rx.Before(e.qval)
    ensures e.qval in Recorded(e.stamps, origin, rx, tx) <==> origin != e.qval
  {
    var m := e.stamps;
    if origin !in m && |m| == TSS_ITEM_CAP {
      var l := LeastExists(m);
      if l == e.qval {
        OnlyOne(m, l);
      }
      WithoutLeastIs(m, l);
    }
  }

  // If the least receive time is the greatest one, it is the only one.
  lemma OnlyOne(m: Stamps, l: Time64)
    requires IsGreatest(l, m) && forall k | k in m :: !k.Before(l)
    ensures |m| == 1
  {
    forall k | k in m ensures k == l {
      OrdinalInjective(k, l);
    }
    assert m == map[l := m[l]];
  }

  // A new client and an update leave the priority exact.
  lemma NewIsExact(s: Store, c: ClientId, req: Request, rxt0: int, now: int,
                   s': Store, rxt: int, txt: int, resp: Response)
    requires c !in s && c in s'
    requires RequestStep(s, c, req, rxt0, now, s', rxt, txt, resp)
    ensures Exact(s'[c])
  {
    var rx, tx := Time64FromTime(rxt), Time64FromTime(txt);
    if |s| >= TSS_CAP && s' != s {
      var v :| IsLeastClient(s, v) && !rx.Before(s[v].qval) && Admitted(s - {v}, c, rx, tx, s');
    }
  }

  lemma UpdateKeepsExact(s: Store, c: ClientId, rxt: int, txt0: int, s': Store, txt: int)
    requires UpdateStep(s, c, rxt, txt0, s', txt)
    ensures c in s && c in s' && Exact(s[c]) ==> Exact(s'[c])
  {
    var rx := Time64FromTime(rxt);
    assert c in s && Exact(s[c]) && rx == s[c].qval ==> IsGreatest(rx, s[c].stamps);
  }

  // A request leaves all priorities exact if they were, unless it overwrites the greatest
  // receive time of its client by an earlier one.
  lemma RequestKeepsAllExact(s: Store, c: ClientId, req: Request, rxt0: int, now: int,
                             s': Store, rxt: int, txt: int, resp: Response)
    requires StoreInv(s) && forall d | d in s :: Exact(s[d])
    requires RequestStep(s, c, req, rxt0, now, s', rxt, txt, resp)
    ensures (forall d | d in s' :: Exact(s'[d])) <==>
            !(c in s && req.origin == s[c].qval && Time64FromTime(rxt).Before(s[c].qval))
  {
    if c in s {
      RequestKeepsExact(s, c, req, rxt0, now, s', rxt, txt, resp);
    } else if c in s' {
      NewIsExact(s, c, req, rxt0, now, s', rxt, txt, resp);
    }
    hide RequestStep, Exact, StoreInv;
    forall d | d in s' && d != c ensures Exact(s'[d]) {
      RequestTouches(s, c, req, rxt0, now, s', rxt, txt, resp, d);
    }
  }

  /* ---- What an update promises ---- */

  lemma UnknownStays(s: Store, c: ClientId, rxt: int, txt0: int)
    requires c !in s
    ensures UpdateStep(s, c, rxt, txt0, s, ForcedAfter(rxt, txt0))
  {
  }

  // The transmit time is the measured one, or the first one after the receive time.
  lemma UpdateTime(s: Store, c: ClientId, rxt: int, txt0: int, s': Store, txt: int)
    requires UpdateStep(s, c, rxt, txt0, s', txt)
    ensures IsFirstFrom(txt, txt0, rxt, true) && (txt == txt0 || txt == rxt + 1)
  {
  }

  // The priority is lowered only with the removal of the greatest receive time, to the
  // greatest one that is left.
  lemma UpdatePriority(s: Store, c: ClientId, rxt: int, txt0: int, s': Store, txt: int)
    requires UpdateStep(s, c, rxt, txt0, s', txt) && c in s && c in s'
    ensures var rx := Time64FromTime(rxt);
      if s'[c].stamps != s[c].stamps && rx !in s'[c].stamps && IsGreatest(rx, s[c].stamps)
      then IsGreatest(s'[c].qval, s'[c].stamps)
      else s'[c].qval == s[c].qval
  {
    var rx := Time64FromTime(rxt);
    assert rx in s[c].stamps ==> s[c].stamps - {rx} != s[c].stamps;
  }

  // An update touches no other client.
  lemma UpdateTouchesOne(s: Store, c: ClientId, rxt: int, txt0: int, s': Store, txt: int, d: ClientId)
    requires UpdateStep(s, c, rxt, txt0, s', txt) && d != c
    ensures (d in s' <==> d in s) && (d in s ==> s'[d] == s[d])
  {
  }

  // An update touches no other pair of its client: it rewrites the transmit time of its
  // pair, or removes the pair if no later time is known.
  lemma UpdateTouchesPair(s: Store, c: ClientId, rxt: int, txt0: int, s': Store, txt: int)
    requires StoreInv(s) && c in s
    requires UpdateStep(s, c, rxt, txt0, s', txt)
    ensures var m, rx, tx := s[c].stamps, Time64FromTime(rxt), Time64FromTime(txt);
      if rx !in m then s' == s
      else if m[rx] != tx then c in s' && s'[c].stamps == m[rx := tx]
      else if m == map[rx := tx] then c !in s'
      else c in s' && s'[c].stamps == m - {rx}
  {
    var m, rx, tx := s[c].stamps, Time64FromTime(rxt), Time64FromTime(txt);
    if rx in m && m[rx] == tx {
      MapRemoveSize(m, rx);
      if |m| == 1 {
        assert m - {rx} == map[];
        assert forall k | k in m :: k == rx || k in m - {rx};
        assert m == map[rx := tx];
      }
    }
  }

  lemma UpdateKeepsAllExact(s: Store, c: ClientId, rxt: int, txt0: int, s': Store, txt: int)
    requires UpdateStep(s, c, rxt, txt0, s', txt) && forall d | d in s :: Exact(s[d])
    ensures forall d | d in s' :: Exact(s'[d])
  {
    hide Exact;
    forall d | d in s' ensures Exact(s'[d]) {
      if d != c {
        UpdateTouchesOne(s, c, rxt, txt0, s', txt, d);
      } else {
        UpdateKeepsExact(s, c, rxt, txt0, s', txt);
        UpdateAddsNone(s, c, rxt, txt0, s', txt);
      }
    }
  }

  lemma UpdateAddsNone(s: Store, c: ClientId, rxt: int, txt0: int, s': Store, txt: int)
    requires UpdateStep(s, c, rxt, txt0, s', txt)
    ensures c in s' ==> c in s
  {
  }

  // Where the pairs of the store come from after an update.
  lemma UpdatePair(s: Store, c: ClientId, rxt: int, txt0: int, s': Store, txt: int, d: ClientId, k: Time64)
    requires StoreInv(s) && d in s' && k in s'[d].stamps
    requires UpdateStep(s, c, rxt, txt0, s', txt)
    ensures d in s && k in s[d].stamps
    ensures s'[d].stamps[k] == if d == c && k == Time64FromTime(rxt) then Time64FromTime(txt) else s[d].stamps[k]
  {
    if d == c {
      assert c in s;
      UpdateTouchesPair(s, c, rxt, txt0, s', txt);
    } else {
      UpdateTouchesOne(s, c, rxt, txt0, s', txt, d);
    }
  }

  /* ---- How unique the receive times are ---- */

  // The receive times stored for a client.
  ghost function StoredTimes(s: Store, c: ClientId): set<Time64> {
    if c in s then s[c].stamps.Keys else {}
  }

  // A request keeps the receive time it came with exactly if no pair in the store of its
  // client has it; pairs that have left the store do not count.
  lemma KeepsItsTime(s: Store, c: ClientId, req: Request, rxt0: int, now: int,
                     s': Store, rxt: int, txt: int, resp: Response)
    requires RequestStep(s, c, req, rxt0, now, s', rxt, txt, resp)
    ensures rxt == rxt0 <==> Time64FromTime(rxt0) !in StoredTimes(s, c)
  {
  }

  // The first free instant from t on, computed.
  ghost function FirstFree(used: set<Time64>, t: int): (r: int)
    ensures t <= r <= t + |used|
    decreases |used|
  {
    if Time64FromTime(t) !in used then t else FirstFree(used - {Time64FromTime(t)}, t + 1)
  }

  lemma {:induction false} FirstFreeIs(used: set<Time64>, t: int)
    requires |used| <= TSS_ITEM_CAP
    ensures IsFirstFree(used, t, FirstFree(used, t))
    decreases |used|
  {
    var x, r := Time64FromTime(t), FirstFree(used, t);
    if x in used {
      FirstFreeIs(used - {x}, t + 1);
      Time64Injective(t, r);
    }
  }

  // The time that a request gets is known from the store and the time it came with.
  lemma AssignsFirstFree(s: Store, c: ClientId, req: Request, rxt0: int, now: int,
                         s': Store, rxt: int, txt: int, resp: Response)
    requires StoreInv(s) && RequestStep(s, c, req, rxt0, now, s', rxt, txt, resp)
    ensures rxt == FirstFree(StoredTimes(s, c), rxt0)
  {
    var used := StoredTimes(s, c);
    if c in s {
      assert |used| == |s[c].stamps|;
    }
    FirstFreeIs(used, rxt0);
    assert IsFirstFree(used, rxt0, rxt);
  }

  // The time that a request will get is new: no request of its client got it before. h are
  // the times that those got.
  ghost predicate GetsNewTime(s: Store, c: ClientId, h: set<Time64>, rxt0: int) {
    Time64FromTime(FirstFree(StoredTimes(s, c), rxt0)) !in h
  }

  // A request gets a new time exactly if the first instant that is not in the store has not
  // been in the store before and left; and exactly if that is the first instant that no
  // request got.
  lemma AssignedIsNew(s: Store, c: ClientId, req: Request, rxt0: int, now: int,
                      s': Store, rxt: int, txt: int, resp: Response, h: set<Time64>)
    requires StoreInv(s) && RequestStep(s, c, req, rxt0, now, s', rxt, txt, resp)
    requires StoredTimes(s, c) <= h
    ensures Time64FromTime(rxt) !in h <==> GetsNewTime(s, c, h, rxt0)
    ensures Time64FromTime(rxt) !in h <==> IsFirstFree(h, rxt0, rxt)
  {
    AssignsFirstFree(s, c, req, rxt0, now, s', rxt, txt, resp);
    FirstFreeIsFirst(s, c, rxt0);
  }

  lemma FirstFreeIsFirst(s: Store, c: ClientId, rxt0: int)
    requires StoreInv(s)
    ensures IsFirstFree(StoredTimes(s, c), rxt0, FirstFree(StoredTimes(s, c), rxt0))
    ensures FirstFree(StoredTimes(s, c), rxt0) <= rxt0 + TSS_ITEM_CAP
  {
    var used := StoredTimes(s, c);
    if c in s {
      assert |used| == |s[c].stamps|;
    }
    FirstFreeIs(used, rxt0);
  }

  // Enough for a new time: the request came later than every time given to its client
  // before, and less than an era later.
  lemma LaterIsNew(s: Store, c: ClientId, given: set<int>, rxt0: int)
    requires StoreInv(s)
    requires forall t | t in given :: t < rxt0 <= t + SECONDS_PER_ERA * NANOS_PER_SECOND - 1 - TSS_ITEM_CAP
    ensures forall t | t in given :: Time64FromTime(t) != Time64FromTime(FirstFree(StoredTimes(s, c), rxt0))
  {
    FirstFreeIsFirst(s, c, rxt0);
    var r := FirstFree(StoredTimes(s, c), rxt0);
    forall t | t in given ensures Time64FromTime(t) != Time64FromTime(r) {
      Time64Injective(t, r);
    }
  }

  // So the server can assign one receive time twice: an update without a later transmit
  // time removes the pair, and the next request at the same instant finds the store as the
  // first one did.
  lemma TimeAssignedTwice(c: ClientId, req: Request, t: int) returns (s: Store, resp: Response)
    ensures RequestStep(map[], c, req, t, t + 1, s, t, t + 1, resp)
    ensures UpdateStep(s, c, t, t + 1, map[], t + 1)
  {
    var rx, tx := Time64FromTime(t), Time64FromTime(t + 1);
    s, resp := map[c := Entry(map[rx := tx], rx)], Response(tx, req.transmit, rx, tx);
    assert s - {c} == map[];
  }
}
