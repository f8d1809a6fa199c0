/** The timestamp store as a value that still shows the slots: what the two critical
    sections do to the slots of a client, and that this is what StoreSpec says
    (core/server/server.go). */
module BufferedStores {
  import opened Lists
  import opened NtpTime
  import opened StoreSpec
  import opened TssItems

  /* ---- The store as a value ---- */

  // One client's pairs in the order of its slots, and its priority.
  datatype Buffered = Buffered(pairs: seq<Stamp>, qval: Time64)

  type Buffers = map<ClientId, Buffered>

  ghost function EntryOf(e: Buffered): Entry {
    Entry(StampsOf(e.pairs), e.qval)
  }

  // What the store specification sees of it.
  ghost function Abs(b: Buffers): Store {
    map c | c in b :: EntryOf(b[c])
  }

  // No client holds two pairs with the same receive time.
  ghost predicate Distinct(b: Buffers) {
    forall c | c in b :: DistinctRx(b[c].pairs)
  }

  lemma AbsUpdated(b: Buffers, c: ClientId, e: Buffered)
    ensures Abs(b[c := e]) == Abs(b)[c := EntryOf(e)]
  {
  }

  lemma AbsWithout(b: Buffers, c: ClientId)
    ensures Abs(b - {c}) == Abs(b) - {c}
  {
  }

  lemma AbsSize(b: Buffers)
    ensures |Abs(b)| == |b|
  {
    assert Abs(b).Keys == b.Keys;
    assert |b| == |b.Keys| && |Abs(b)| == |Abs(b).Keys|;
  }

  /* ---- Gauges ---- */

  // The number of pairs in the whole store.
  ghost function Total(s: Buffers): nat {
    if s == map[] then 0
    else
      var c :| c in s;
      MapRemoveSize(s, c);
      |s[c].pairs| + Total(s - {c})
  }

  lemma {:induction false} TotalWithout(s: Buffers, c: ClientId)
    requires c in s
    ensures Total(s) == |s[c].pairs| + Total(s - {c})
    decreases |s|
  {
    var d :| d in s && Total(s) == |s[d].pairs| + Total(s - {d});
    if d != c {
      MapRemoveSize(s, c);
      MapRemoveSize(s, d);
      TotalWithout(s - {d}, c);
      TotalWithout(s - {c}, d);
      assert s - {d} - {c} == s - {c} - {d};
    }
  }

  lemma TotalUpdated(s: Buffers, c: ClientId, e: Buffered)
    ensures Total(s[c := e]) == Total(s) - (if c in s then |s[c].pairs| else 0) + |e.pairs|
  {
    TotalWithout(s[c := e], c);
    assert s[c := e] - {c} == s - {c};
    if c in s {
      TotalWithout(s, c);
    } else {
      assert s - {c} == s;
    }
  }

  /* ---- A request ---- */

  ghost function RecordedPairs(p: seq<Stamp>, o: int, min: int, rx: Time64, tx: Time64): seq<Stamp>
    requires -1 <= o < |p| && -1 <= min < |p|
    requires |p| == TSS_ITEM_CAP ==> min != -1
  {
    if o != -1 then p[o := Stamp(rx, tx)]
    else if |p| == TSS_ITEM_CAP then p[min := Stamp(rx, tx)]
    else p + [Stamp(rx, tx)]
  }

  ghost function RaisedBy(e: Buffered, max: int, rx: Time64): Time64
    requires -1 <= max < |e.pairs|
  {
    if max != -1 && rx.After(e.pairs[max].rxt) then rx else e.qval
  }

  // The slots after a request hold what the specification says.
  lemma RecordedRefines(p: seq<Stamp>, origin: Time64, o: int, min: int, max: int, rx: Time64, tx: Time64)
    requires DistinctRx(p) && |p| <= TSS_ITEM_CAP
    requires Scanned(p, |p|, origin, o, min, max)
    requires forall j :: 0 <= j < |p| ==> p[j].rxt != rx
    ensures DistinctRx(RecordedPairs(p, o, min, rx, tx))
    ensures StampsOf(RecordedPairs(p, o, min, rx, tx)) == Recorded(StampsOf(p), origin, rx, tx)
  {
    StampsOfHasNot(p, rx);
    StampsOfSize(p);
    if o != -1 {
      StampsOfHas(p, o);
      StampsOfReplaced(p, o, Stamp(rx, tx));
    } else {
      StampsOfHasNot(p, origin);
      if |p| == TSS_ITEM_CAP {
        LeastOfSlots(p, min);
        WithoutLeastIs(StampsOf(p), p[min].rxt);
        StampsOfReplaced(p, min, Stamp(rx, tx));
      } else {
        StampsOfAppended(p, Stamp(rx, tx));
      }
    }
  }

  lemma LeastOfSlots(p: seq<Stamp>, min: int)
    requires DistinctRx(p) && 0 <= min < |p|
    requires forall j :: 0 <= j < |p| ==> !p[j].rxt.Before(p[min].rxt)
    ensures p[min].rxt in StampsOf(p)
    ensures forall k | k in StampsOf(p) :: !k.Before(p[min].rxt)
  {
    StampsOfHas(p, min);
    forall k | k in StampsOf(p) ensures !k.Before(p[min].rxt) {
      var j := StampsOfOnly(p, k);
    }
  }

  lemma RaisedRefines(e: Buffered, origin: Time64, o: int, min: int, max: int, rx: Time64)
    requires DistinctRx(e.pairs)
    requires Scanned(e.pairs, |e.pairs|, origin, o, min, max)
    requires forall j :: 0 <= j < |e.pairs| ==> e.pairs[j].rxt != rx
    requires e.pairs == [] ==> e.qval == rx
    ensures RaisedBy(e, max, rx) == RaisedQval(EntryOf(e), rx)
  {
    var m := StampsOf(e.pairs);
    if max != -1 {
      StampsOfHas(e.pairs, max);
      forall k | k in m ensures !e.pairs[max].rxt.Before(k) {
        var j := StampsOfOnly(e.pairs, k);
      }
      if !rx.After(e.pairs[max].rxt) {
        assert e.pairs[max].rxt in m && !e.pairs[max].rxt.Before(rx);
      }
    }
  }

  // What a request of a known client does to the slots, given what the scan found.
  ghost predicate KnownDone(b: Buffers, c: ClientId, req: Request, rxt0: int, now: int,
                            o: int, min: int, max: int, rxt: int, txt: int, b': Buffers, resp: Response)
    requires c in b
  {
    var p, rx, tx := b[c].pairs, Time64FromTime(rxt), Time64FromTime(txt);
    && Scanned(p, |p|, req.origin, o, min, max)
    && IsFirstFree(StampsOf(p).Keys, rxt0, rxt) && txt == AssignedTx(rxt0, rxt, now)
    && 1 <= |p| <= TSS_ITEM_CAP
    && b' == b[c := Buffered(RecordedPairs(p, o, min, rx, tx), RaisedBy(b[c], max, rx))]
    && resp == (if req.receive != req.transmit && o != -1 then Response(tx, req.receive, rx, p[o].txt)
                else Response(tx, req.transmit, rx, tx))
  }

  lemma KnownRefines(b: Buffers, c: ClientId, req: Request, rxt0: int, now: int,
                     o: int, min: int, max: int, rxt: int, txt: int, b': Buffers, resp: Response)
    requires Distinct(b) && c in b
    requires KnownDone(b, c, req, rxt0, now, o, min, max, rxt, txt, b', resp)
    ensures Distinct(b')
    ensures RequestStep(Abs(b), c, req, rxt0, now, Abs(b'), rxt, txt, resp)
    ensures ServedInterleaved(Abs(b), c, req) <==> req.receive != req.transmit && o != -1
  {
    var p := b[c].pairs;
    var rx, tx := Time64FromTime(rxt), Time64FromTime(txt);
    forall j | 0 <= j < |p| ensures p[j].rxt != rx {
      StampsOfHas(p, j);
    }
    RecordedRefines(p, req.origin, o, min, max, rx, tx);
    RaisedRefines(b[c], req.origin, o, min, max, rx);
    AbsUpdated(b, c, b'[c]);
    if o != -1 {
      StampsOfHas(p, o);
    } else {
      StampsOfHasNot(p, req.origin);
    }
  }

  // What a request of a new client does: it leaves one pair, or none if it was not
  // admitted; v is the client that had to go, if any.
  ghost predicate NewDone(b: Buffers, c: ClientId, rx: Time64, tx: Time64, v: ClientId, b': Buffers) {
    var e := Buffered([Stamp(rx, tx)], rx);
    || (|b| < TSS_CAP && b' == b[c := e])
    || (|b| == TSS_CAP && v in b && (forall d | d in b :: !b[d].qval.Before(b[v].qval)) &&
        !rx.Before(b[v].qval) && b' == (b - {v})[c := e])
    || (|b| == TSS_CAP && b' == b && forall d | d in b :: rx.Before(b[d].qval))
  }

  lemma NewRefines(b: Buffers, c: ClientId, req: Request, rxt: int, now: int, v: ClientId, b': Buffers)
    requires Distinct(b) && c !in b
    requires NewDone(b, c, Time64FromTime(rxt), Time64FromTime(now), v, b')
    ensures Distinct(b')
    ensures RequestStep(Abs(b), c, req, rxt, now, Abs(b'), rxt, now,
                        Response(Time64FromTime(now), req.transmit, Time64FromTime(rxt), Time64FromTime(now)))
  {
    var rx, tx := Time64FromTime(rxt), Time64FromTime(now);
    var e := Buffered([Stamp(rx, tx)], rx);
    AbsSize(b);
    StampsOfAppended([], Stamp(rx, tx));
    assert [] + [Stamp(rx, tx)] == [Stamp(rx, tx)];
    assert StampsOf([Stamp(rx, tx)]) == map[rx := tx];
    if |b| < TSS_CAP {
      AbsUpdated(b, c, e);
      assert Admitted(Abs(b), c, rx, tx, Abs(b'));
    } else if b' == b && forall d | d in b :: rx.Before(b[d].qval) {
      assert AdmittedToFull(Abs(b), c, rx, tx, Abs(b'));
    } else {
      AbsWithout(b, v);
      AbsUpdated(b - {v}, c, e);
      assert IsLeastClient(Abs(b), v);
      assert Admitted(Abs(b) - {v}, c, rx, tx, Abs(b'));
    }
  }

  /* ---- An update ---- */

  // The slots and the priority after the removal of one pair out of several.
  lemma RemovedRefines(e: Buffered, rx: Time64, x: int, max0: int, max1: int)
    requires DistinctRx(e.pairs) && |e.pairs| >= 2
    requires ScannedTop(e.pairs, |e.pairs|, rx, x, max0, max1) && x != -1
    ensures DistinctRx(SwapRemoved(e.pairs, x))
    ensures StampsOf(SwapRemoved(e.pairs, x)) == StampsOf(e.pairs) - {rx}
    ensures IsLoweredQval(EntryOf(e), rx,
                          if e.pairs[max0].rxt == rx then e.pairs[max1].rxt else e.qval)
  {
    var p := e.pairs;
    var m := StampsOf(p);
    StampsOfSwapRemoved(p, x);
    StampsOfHas(p, max0);
    StampsOfHas(p, x);
    StampsOfHas(p, max1);
    if p[max0].rxt == rx {
      assert max0 == x;
      forall k | k in m ensures !rx.Before(k) && (k != rx ==> !p[max1].rxt.Before(k)) {
        var j := StampsOfOnly(p, k);
      }
      assert IsGreatest(p[max1].rxt, m - {rx});
    } else if IsGreatest(rx, m) {
      OrdinalInjective(p[max0].rxt, rx);
    }
  }

  // What an update does to the slots of a client that has the pair x.
  ghost predicate PairUpdated(b: Buffers, c: ClientId, rx: Time64, tx: Time64,
                              x: int, max0: int, max1: int, b': Buffers)
    requires c in b
  {
    var e := b[c];
    && ScannedTop(e.pairs, |e.pairs|, rx, x, max0, max1)
    && if x == -1 then b' == b
       else if e.pairs[x].txt != tx then b' == b[c := Buffered(e.pairs[x := Stamp(rx, tx)], e.qval)]
       else if |e.pairs| == 1 then b' == b - {c}
       else b' == b[c := Buffered(SwapRemoved(e.pairs, x),
                                  if e.pairs[max0].rxt == rx then e.pairs[max1].rxt else e.qval)]
  }

  lemma UpdateRefines(b: Buffers, c: ClientId, rxt: int, txt0: int,
                      x: int, max0: int, max1: int, b': Buffers)
    requires Distinct(b) && c in b
    requires PairUpdated(b, c, Time64FromTime(rxt), Time64FromTime(ForcedAfter(rxt, txt0)), x, max0, max1, b')
    ensures Distinct(b')
    ensures UpdateStep(Abs(b), c, rxt, txt0, Abs(b'), ForcedAfter(rxt, txt0))
  {
    hide Time64FromTime, ForcedAfter, StampsOf;
    var e := b[c];
    var rx, tx := Time64FromTime(rxt), Time64FromTime(ForcedAfter(rxt, txt0));
    StampsOfSize(e.pairs);
    if x == -1 {
      StampsOfHasNot(e.pairs, rx);
    } else {
      StampsOfHas(e.pairs, x);
      if e.pairs[x].txt != tx {
        StampsOfReplaced(e.pairs, x, Stamp(rx, tx));
        AbsUpdated(b, c, b'[c]);
        assert (StampsOf(e.pairs) - {rx})[rx := tx] == StampsOf(e.pairs)[rx := tx];
      } else if |e.pairs| == 1 {
        AbsWithout(b, c);
      } else {
        RemovedRefines(e, rx, x, max0, max1);
        AbsUpdated(b, c, b'[c]);
      }
    }
  }
}
