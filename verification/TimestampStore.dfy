/** The server's timestamp store as the program keeps it: a map of items and a priority
    queue of the same items, changed by two critical sections (core/server/server.go). */
module TimestampStores {
  import opened Lists
  import opened NtpTime
  import opened StoreSpec
  import opened TssItems
  import opened TssQueues
  import opened BufferedStores

  // The first len slots of a buffer.
  ghost function Used(buf: seq<Stamp>, len: int): (p: seq<Stamp>)
    requires 0 <= len <= |buf|
    ensures |p| == len
  {
    buf[..len]
  }

  lemma UsedWritten(buf: seq<Stamp>, len: int, i: int, st: Stamp)
    requires 0 <= i < len <= |buf|
    ensures Used(buf[i := st], len) == Used(buf, len)[i := st]
  {
  }

  lemma UsedAppended(buf: seq<Stamp>, len: int, st: Stamp)
    requires 0 <= len < |buf|
    ensures Used(buf[len := st], len + 1) == Used(buf, len) + [st]
  {
  }

  lemma UsedSwapRemoved(buf: seq<Stamp>, len: int, i: int)
    requires 0 <= i < len <= |buf|
    ensures Used(buf[i := buf[len - 1]], len - 1) == SwapRemoved(Used(buf, len), i)
  {
  }

  // The value of an item.
  ghost predicate Shows(v: Buffered, x: TssItem)
    reads x`buf, x`len, x`qval
  {
    && |x.buf| == TSS_ITEM_CAP
    && x.len <= TSS_ITEM_CAP
    && v == Buffered(Used(x.buf, x.len), x.qval)
  }

  // The map t holds exactly the items in q, by their keys.
  ghost predicate Indexes(t: map<ClientId, TssItem>, q: set<TssItem>) {
    && (forall c {:trigger t[c]} :: c in t ==> t[c].key == c && t[c] in q)
    && (forall x {:trigger x.key} :: x in q ==> x.key in t && t[x.key] == x)
  }

  // The value of the map t is v.
  ghost predicate HasValue(t: map<ClientId, TssItem>, v: Buffers)
    reads t.Values`buf, t.Values`len, t.Values`qval
  {
    && v.Keys == t.Keys
    && (forall c {:trigger t[c]} {:trigger v[c]} :: c in t ==>
          && t[c].key == c
          && Shows(v[c], t[c]))
  }

  lemma IndexesAdded(t: map<ClientId, TssItem>, q: set<TssItem>, x: TssItem)
    requires Indexes(t, q) && x.key !in t
    ensures Indexes(t[x.key := x], q + {x})
  {
  }

  lemma IndexesRemoved(t: map<ClientId, TssItem>, q: set<TssItem>, x: TssItem)
    requires Indexes(t, q) && x in q
    ensures Indexes(t - {x.key}, q - {x})
  {
  }

  lemma ValueAdded(t: map<ClientId, TssItem>, v: Buffers, x: TssItem)
    requires HasValue(t, v) && x.key !in t
    requires x.len == 0 && |x.buf| == TSS_ITEM_CAP
    ensures HasValue(t[x.key := x], v[x.key := Buffered([], x.qval)])
  {
    assert Used(x.buf, 0) == [];
  }

  lemma ValueRemoved(t: map<ClientId, TssItem>, v: Buffers, c: ClientId)
    requires HasValue(t, v)
    ensures HasValue(t - {c}, v - {c})
  {
  }

  class TimestampStore {
    var tss: map<ClientId, TssItem>
    const tssQ: TssQueue
    var tssItems: int
    var tssValues: int
    var reqsServedInterleaved: nat
    var rxtIncrements: nat
    var txtIncrementsBefore: nat
    var txtIncrementsAfter: nat
    ghost var view: Buffers  // the store as a value

    // Map and queue hold the same items.
    ghost predicate Linked()
      reads this`tss, tssQ, tssQ.items`qidx, tssQ.items`qval, tssQ.elems`qidx
    {
      tssQ.Valid() && |tss| == |tssQ.items| && Indexes(tss, tssQ.elems)
    }

    ghost predicate Viewed()
      reads this`tss, this`view, tss.Values`buf, tss.Values`len, tss.Values`qval
    {
      HasValue(tss, view)
    }

    // The gauges are the number of items and the number of their pairs.
    ghost predicate Counted()
      reads this`tss, this`view, this`tssItems, this`tssValues
    {
      tssItems == |tss| && tssValues == Total(view)
    }

    ghost predicate Valid()
      reads this, tssQ, tss.Values`buf, tss.Values`len, tss.Values`qval
      reads tssQ.items`qidx, tssQ.items`qval, tssQ.elems`qidx
    {
      Linked() && Viewed() && Counted() && Distinct(view) && StoreInv(Abs(view))
    }

    ghost predicate Stored(x: TssItem)
      reads this`tss
    {
      x.key in tss && tss[x.key] == x
    }

    constructor ()
      ensures Valid() && view == map[] && fresh(tssQ)
    {
      tss := map[];
      tssQ := new TssQueue();
      tssItems, tssValues := 0, 0;
      reqsServedInterleaved, rxtIncrements, txtIncrementsBefore, txtIncrementsAfter := 0, 0, 0, 0;
      view := map[];
    }

    // Brings the view of one changed item up to date.
    ghost method Record(x: TssItem)
      requires Stored(x) && view.Keys == tss.Keys
      requires |x.buf| == TSS_ITEM_CAP && x.len <= TSS_ITEM_CAP
      requires forall c {:trigger tss[c]} {:trigger view[c]} :: c in tss ==>
                 tss[c].key == c && (c != x.key ==> Shows(view[c], tss[c]))
      requires tssItems == |tss|
      requires tssValues == Total(view) - |view[x.key].pairs| + x.len
      modifies this`view
      ensures Viewed() && Counted()
      ensures view == old(view)[x.key := Buffered(Used(x.buf, x.len), x.qval)]
    {
      TotalUpdated(view, x.key, Buffered(Used(x.buf, x.len), x.qval));
      view := view[x.key := Buffered(Used(x.buf, x.len), x.qval)];
    }

    // Replaces the pair in slot i.
    method WriteStamp(x: TssItem, i: int, rx: Time64, tx: Time64)
      requires Viewed() && Counted() && Stored(x) && 0 <= i < x.len
      modifies this`view, x`buf
      ensures Viewed() && Counted()
      ensures view == old(view)[x.key := Buffered(old(view)[x.key].pairs[i := Stamp(rx, tx)], x.qval)]
    {
      UsedWritten(x.buf, x.len, i, Stamp(rx, tx));
      x.buf := x.buf[i := Stamp(rx, tx)];
      Record(x);
    }

    // Adds a pair in the next free slot.
    method AppendStamp(x: TssItem, rx: Time64, tx: Time64)
      requires Viewed() && Counted() && Stored(x) && x.len < TSS_ITEM_CAP
      modifies this`view, this`tssValues, x`buf, x`len
      ensures Viewed() && Counted()
      ensures view == old(view)[x.key := Buffered(old(view)[x.key].pairs + [Stamp(rx, tx)], x.qval)]
    {
      hide Total, Used;
      UsedAppended(x.buf, x.len, Stamp(rx, tx));
      x.buf := x.buf[x.len := Stamp(rx, tx)];
      x.len := x.len + 1;
      tssValues := tssValues + 1;
      Record(x);
    }

    // Removes the pair in slot i: the last pair takes its place.
    method RemoveStamp(x: TssItem, i: int)
      requires Viewed() && Counted() && Stored(x) && 0 <= i < x.len
      modifies this`view, this`tssValues, x`buf, x`len
      ensures Viewed() && Counted()
      ensures view == old(view)[x.key := Buffered(SwapRemoved(old(view)[x.key].pairs, i), x.qval)]
    {
      hide Total;
      UsedSwapRemoved(x.buf, x.len, i);
      x.buf, x.len, tssValues := x.buf[i := x.buf[x.len - 1]], x.len - 1, tssValues - 1;
      Record(x);
    }

    // Sets the priority of an item and fixes the queue accordingly.
    method SetQval(x: TssItem, q: Time64)
      requires Linked() && Viewed() && Counted() && Stored(x)
      modifies this`view, tssQ`items, tssQ`keys, x`qval, tssQ.elems`qidx
      ensures Linked() && Viewed() && Counted()
      ensures view == old(view)[x.key := old(view[x.key]).(qval := q)]
    {
      assert x in tssQ.elems;
      hide TssQueue.Valid, Indexes, Total;
      tssQ.Rekey(x, q);
      Record(x);
    }

    // Sets the map and the gauges.
    method Install(t: map<ClientId, TssItem>, items: int, values: int,
                   ghost v: Buffers)
      modifies this`tss, this`tssItems, this`tssValues, this`view
      ensures tss == t && tssItems == items && tssValues == values && view == v
    {
      tss, tssItems, tssValues, view := t, items, values, v;
    }

    // Adds an item without pairs to the queue.
    method Enqueue(c: ClientId, q: Time64) returns (x: TssItem)
      requires tssQ.Valid()
      modifies tssQ, tssQ.elems`qidx
      ensures tssQ.Valid() && |tssQ.items| == |old(tssQ.items)| + 1 && tssQ.elems == old(tssQ.elems) + {x}
      ensures fresh(x) && |x.buf| == TSS_ITEM_CAP
      ensures x.key == c && x.qval == q && x.len == 0
    {
      x := new TssItem(c, q);
      tssQ.Push(x);
    }

    // Puts an item without pairs into the map.
    method Insert(x: TssItem)
      requires Viewed() && Counted() && x.key !in tss
      requires x.len == 0 && |x.buf| == TSS_ITEM_CAP
      modifies this`tss, this`view, this`tssItems, this`tssValues
      ensures Viewed() && Counted()
      ensures tss == old(tss)[x.key := x] && |tss| == |old(tss)| + 1
      ensures view == old(view)[x.key := Buffered([], x.qval)]
    {
      TotalUpdated(view, x.key, Buffered([], x.qval));
      ValueAdded(tss, view, x);
      MapUpdateSize(tss, x.key, x);
      hide HasValue, Total;
      Install(tss[x.key := x], tssItems + 1, tssValues, view[x.key := Buffered([], x.qval)]);
    }

    // Deletes an item from the map.
    method Delete(x: TssItem)
      requires Viewed() && Counted() && Stored(x)
      modifies this`tss, this`view, this`tssItems, this`tssValues
      ensures Viewed() && Counted()
      ensures tss == old(tss) - {x.key} && |tss| == |old(tss)| - 1
      ensures view == old(view) - {x.key}
    {
      MapRemoveSize(tss, x.key);
      ValueRemoved(tss, view, x.key);
      TotalWithout(view, x.key);
      assert |view[x.key].pairs| == x.len;
      hide HasValue, Total;
      Install(tss - {x.key}, tssItems - 1, tssValues - x.len, view - {x.key});
    }

    // Adds an item without pairs.
    method AddItem(c: ClientId, q: Time64) returns (x: TssItem)
      requires Linked() && Viewed() && Counted() && c !in tss
      modifies this`tss, this`view, this`tssItems, this`tssValues, tssQ, tssQ.elems`qidx
      ensures Linked() && Viewed() && Counted() && Stored(x)
      ensures fresh(x) && tssQ.elems == old(tssQ.elems) + {x}
      ensures x.key == c && x.len == 0 && |tss| == |old(tss)| + 1
      ensures view == old(view)[c := Buffered([], q)]
    {
      hide TssQueue.Valid, Total, HasValue;
      x := Enqueue(c, q);
      IndexesAdded(tss, old(tssQ.elems), x);
      hide Indexes;
      Insert(x);
    }

    // Removes an item, wherever it is in the queue.
    method RemoveItem(x: TssItem)
      requires Linked() && Viewed() && Counted() && Stored(x)
      modifies this`tss, this`view, this`tssItems, this`tssValues, tssQ, tssQ.elems`qidx
      ensures Linked() && Viewed() && Counted() && tssQ.elems == old(tssQ.elems) - {x}
      ensures view == old(view) - {x.key}
    {
      hide TssQueue.Valid, Viewed, Counted;
      assert x in tssQ.elems;
      IndexesRemoved(tss, tssQ.elems, x);
      tssQ.Positions();
      hide Indexes;
      var y := tssQ.Remove(x.qidx);
      Delete(y);
    }

    // Removes the item with the least priority.
    method PopItem() returns (ghost v: ClientId)
      requires Linked() && Viewed() && Counted() && |tss| > 0
      modifies this`tss, this`view, this`tssItems, this`tssValues, tssQ, tssQ.elems`qidx
      ensures Linked() && Viewed() && Counted()
      ensures view == old(view) - {v} && |tss| == |old(tss)| - 1
      ensures v == old(tssQ.items[0].key) && tssQ.elems <= old(tssQ.elems)
    {
      hide TssQueue.Valid, Viewed, Counted;
      tssQ.Positions();
      IndexesRemoved(tss, tssQ.elems, tssQ.items[0]);
      assert Stored(tssQ.items[0]);
      hide Indexes;
      var x := tssQ.Pop();
      v := x.key;
      Delete(x);
    }

    /* ---- handleRequest ---- */

    // Moves the receive time on until it is unique for the client, and the transmit time
    // behind it. The last scan tells where the pairs of interest are.
    method AssignTimes(x: TssItem, origin: Time64, rxt0: int, now: int)
      returns (rxt: int, txt: int, o: int, min: int, max: int)
      requires Viewed() && Stored(x) && DistinctRx(view[x.key].pairs)
      modifies this`rxtIncrements, this`txtIncrementsBefore
      ensures Scanned(view[x.key].pairs, |view[x.key].pairs|, origin, o, min, max)
      ensures IsFirstFree(StampsOf(view[x.key].pairs).Keys, rxt0, rxt)
      ensures txt == AssignedTx(rxt0, rxt, now) && IsFirstFrom(txt, now, rxt, rxt != rxt0)
      ensures rxtIncrements == old(rxtIncrements) + (rxt - rxt0)
      ensures txtIncrementsBefore == old(txtIncrementsBefore) + TxMoves(rxt0, rxt, now)
    {
      rxt, txt := rxt0, now;
      ghost var p := view[x.key].pairs;
      ghost var used := StampsOf(p).Keys;
      StampsOfSize(p);
      while true
        invariant 0 <= rxt - rxt0 <= |used| <= TSS_ITEM_CAP
        invariant forall u :: rxt0 <= u < rxt ==> Time64FromTime(u) in used
        invariant txt == AssignedTx(rxt0, rxt, now)
        invariant rxtIncrements == old(rxtIncrements) + (rxt - rxt0)
        invariant txtIncrementsBefore == old(txtIncrementsBefore) + TxMoves(rxt0, rxt, now)
        decreases |used| - (rxt - rxt0)
      {
        var i;
        AssignedTxIs(rxt0, rxt, now);
        i, o, min, max := x.Scan(Time64FromTime(rxt), origin);
        ScanOfUsed(x, Time64FromTime(rxt), i, origin, o, min, max);
        if i == x.len {
          break;
        }
        RunIsShort(used, rxt0, rxt + 1 - rxt0);
        rxt := rxt + 1;
        rxtIncrements := rxtIncrements + 1;
        if rxt >= txt {
          txt := rxt + 1;
          txtIncrementsBefore := txtIncrementsBefore + 1;
        }
      }
    }

    // What a scan of the slots in use says about the pairs.
    lemma ScanOfUsed(x: TssItem, rx: Time64, i: int, origin: Time64, o: int, min: int, max: int)
      requires Viewed() && Stored(x) && DistinctRx(view[x.key].pairs)
      requires 0 <= i <= x.len <= |x.buf|
      requires i != x.len ==> x.buf[i].rxt == rx
      requires i == x.len ==>
                 Scanned(x.buf, x.len, origin, o, min, max) && forall j :: 0 <= j < x.len ==> x.buf[j].rxt != rx
      ensures var p := view[x.key].pairs;
        && |p| == x.len
        && (if i == x.len then Scanned(p, |p|, origin, o, min, max) && rx !in StampsOf(p) else rx in StampsOf(p))
    {
      var p := view[x.key].pairs;
      assert forall j :: 0 <= j < x.len ==> p[j] == x.buf[j];
      if i == x.len {
        StampsOfHasNot(p, rx);
      } else {
        StampsOfHas(p, i);
      }
    }

    // Makes room for a new client if the store is full and the client is not older than
    // all others, and adds it if there is room.
    method Admit(c: ClientId, rx: Time64) returns (x: TssItem?, ghost v: ClientId)
      requires Linked() && Viewed() && Counted() && c !in tss && |tss| <= TSS_CAP
      modifies this`tss, this`view, this`tssItems, this`tssValues, tssQ, tssQ.elems`qidx
      ensures Linked() && Viewed() && Counted()
      ensures fresh(tssQ.elems - old(tssQ.elems))
      ensures x == null ==>
                view == old(view) && |old(tss)| == TSS_CAP && forall d :: d in view ==> rx.Before(view[d].qval)
      ensures x != null ==> fresh(x) && Stored(x) && x.key == c && x.len == 0
      ensures x != null && |old(tss)| < TSS_CAP ==> view == old(view)[c := Buffered([], rx)]
      ensures x != null && |old(tss)| == TSS_CAP ==>
                && v in old(view)
                && (forall d :: d in old(view) ==> !old(view)[d].qval.Before(old(view)[v].qval))
                && !rx.Before(old(view)[v].qval)
                && view == (old(view) - {v})[c := Buffered([], rx)]
    {
      v := c;
      if |tss| == TSS_CAP {
        FirstIsLeastClient();
        var first := tssQ.items[0].qval;
        if !first.After(rx) {
          v := PopItem();
        }
      }
      if |tss| == TSS_CAP {
        x := null;
      } else {
        x := AddItem(c, rx);
      }
    }

    lemma FirstIsLeastClient()
      requires Linked() && Viewed() && |tss| > 0
      ensures |tssQ.items| > 0 && tssQ.items[0].key in view
      ensures view[tssQ.items[0].key].qval == tssQ.items[0].qval
      ensures forall d :: d in view ==> !view[d].qval.Before(tssQ.items[0].qval)
    {
      tssQ.Positions();
      tssQ.FirstIsLeast();
      assert Stored(tssQ.items[0]);
      forall d | d in view ensures !view[d].qval.Before(tssQ.items[0].qval) {
        assert tss[d] in tssQ.elems;
      }
    }

    // Records the pair of a request: in the slot the request refers to, in the slot with
    // the least receive time, or in a new one.
    method RecordRequest(x: TssItem, o: int, min: int, max: int, rx: Time64, tx: Time64)
      requires Linked() && Viewed() && Counted() && Stored(x)
      requires -1 <= o < x.len && -1 <= min < x.len && -1 <= max < x.len
      requires x.len == TSS_ITEM_CAP ==> min != -1
      modifies this`view, this`tssValues, x`buf, x`len, x`qval, tssQ`items, tssQ`keys, tssQ.elems`qidx
      ensures Linked() && Viewed() && Counted()
      ensures var e := old(view)[x.key];
        view == old(view)[x.key := Buffered(RecordedPairs(e.pairs, o, min, rx, tx), RaisedBy(e, max, rx))]
    {
      hide Linked, Counted, HasValue;
      ReadSlots(x);
      if max != -1 && rx.After(x.buf[max].rxt) {
        SetQval(x, rx);
        ReadSlots(x);
      }
      if o != -1 {
        WriteStamp(x, o, rx, tx);
      } else if x.len == TSS_ITEM_CAP {
        WriteStamp(x, min, rx, tx);
      } else {
        AppendStamp(x, rx, tx);
      }
    }

    lemma InQueue(x: TssItem)
      requires Linked() && Stored(x)
      ensures x in tssQ.elems
    {
    }

    lemma ReadSlots(x: TssItem)
      requires Viewed() && Stored(x)
      ensures x.key in view && |view[x.key].pairs| == x.len <= |x.buf| == TSS_ITEM_CAP
      ensures view[x.key].qval == x.qval
      ensures forall i :: 0 <= i < x.len ==> view[x.key].pairs[i] == x.buf[i]
    {
    }

    // The part of handleRequest for a known client.
    method HandleKnown(x: TssItem, req: Request, rxt0: int, now: int)
      returns (rxt: int, txt: int, resp: Response, ghost o: int, ghost min: int, ghost max: int)
      requires Linked() && Viewed() && Counted() && Stored(x)
      requires DistinctRx(view[x.key].pairs) && x.len >= 1
      modifies this, tssQ, tssQ.elems
      ensures Linked() && Viewed() && Counted() && tssQ.elems == old(tssQ.elems)
      ensures KnownDone(old(view), x.key, req, rxt0, now, o, min, max, rxt, txt, view, resp)
      ensures rxtIncrements == old(rxtIncrements) + (rxt - rxt0)
      ensures txtIncrementsBefore == old(txtIncrementsBefore) + TxMoves(rxt0, rxt, now)
      ensures txtIncrementsAfter == old(txtIncrementsAfter)
      ensures reqsServedInterleaved == old(reqsServedInterleaved) +
                (if req.receive != req.transmit && o != -1 then 1 else 0)
    {
      hide Linked, Counted, HasValue;
      InQueue(x);
      var slot, least, greatest;
      rxt, txt, slot, least, greatest := AssignTimes(x, req.origin, rxt0, now);
      o, min, max := slot, least, greatest;
      ReadSlots(x);
      var rx, tx := Time64FromTime(rxt), Time64FromTime(txt);
      if req.receive != req.transmit && slot != -1 {
        resp := Response(tx, req.receive, rx, x.buf[slot].txt);
        reqsServedInterleaved := reqsServedInterleaved + 1;
      } else {
        resp := Response(tx, req.transmit, rx, tx);
      }
      RecordRequest(x, slot, least, greatest, rx, tx);
    }

    // The part of handleRequest for a new client.
    method HandleNew(c: ClientId, req: Request, rxt: int, txt: int)
      returns (resp: Response, ghost v: ClientId)
      requires Linked() && Viewed() && Counted() && c !in tss && |view| == |tss| <= TSS_CAP
      modifies this, tssQ, tssQ.elems
      ensures Linked() && Viewed() && Counted() && fresh(tssQ.elems - old(tssQ.elems))
      ensures NewDone(old(view), c, Time64FromTime(rxt), Time64FromTime(txt), v, view)
      ensures resp == Response(Time64FromTime(txt), req.transmit, Time64FromTime(rxt), Time64FromTime(txt))
      ensures rxtIncrements == old(rxtIncrements) && reqsServedInterleaved == old(reqsServedInterleaved)
      ensures txtIncrementsBefore == old(txtIncrementsBefore) && txtIncrementsAfter == old(txtIncrementsAfter)
    {
      hide Linked, Counted, HasValue;
      var rx, tx := Time64FromTime(rxt), Time64FromTime(txt);
      var tssi;
      tssi, v := Admit(c, rx);
      resp := Response(tx, req.transmit, rx, tx);
      assert [] + [Stamp(rx, tx)] == [Stamp(rx, tx)];
      if tssi != null {
        RecordRequest(tssi, -1, -1, -1, rx, tx);
      }
    }

    // The critical section of handleRequest: rxt0 is when the request was received, now
    // is the reading of the clock.
    method HandleRequest(clientID: ClientId, req: Request, rxt0: int, now: int)
      returns (rxt: int, txt: int, resp: Response)
      requires Valid()
      modifies this, tssQ, tssQ.elems
      ensures Valid() && fresh(tssQ.elems - old(tssQ.elems))
      ensures tssItems == |Abs(view)| && tssValues == Total(view)
      ensures RequestStep(Abs(old(view)), clientID, req, rxt0, now, Abs(view), rxt, txt, resp)
      ensures rxt0 <= rxt && now <= txt && (rxt != rxt0 ==> rxt < txt)
      ensures txt == now || (rxt != rxt0 && txt == rxt + 1)
      ensures IsFirstFrom(txt, now, rxt, rxt != rxt0)
      ensures rxt < txt <==> rxt != rxt0 || rxt0 < now
      ensures var s := Abs(old(view));
        && (forall u :: rxt0 <= u < rxt ==> clientID in s && Time64FromTime(u) in s[clientID].stamps)
        && (clientID in s ==> Time64FromTime(rxt) !in s[clientID].stamps)
        && resp.receive == Time64FromTime(rxt) && resp.reference == Time64FromTime(txt)
        && if clientID in s && req.origin in s[clientID].stamps && req.receive != req.transmit
           then
             && resp.origin == req.receive && resp.transmit == s[clientID].stamps[req.origin]
             && reqsServedInterleaved == old(reqsServedInterleaved) + 1
           else
             && resp.origin == req.transmit && resp.transmit == Time64FromTime(txt)
             && reqsServedInterleaved == old(reqsServedInterleaved)
      ensures rxtIncrements == old(rxtIncrements) + (rxt - rxt0)
      ensures txtIncrementsBefore == old(txtIncrementsBefore) + |Passed(rxt0, rxt, now)|
      ensures txtIncrementsAfter == old(txtIncrementsAfter)
    {
      hide Linked, Counted, HasValue;
      ghost var b := view;
      if clientID in tss {
        LenOfKnown(clientID);
        ghost var o, min, max;
        rxt, txt, resp, o, min, max := HandleKnown(tss[clientID], req, rxt0, now);
        KnownRefines(b, clientID, req, rxt0, now, o, min, max, rxt, txt, view, resp);
      } else {
        SizeWithinCap();
        ghost var v;
        rxt, txt := rxt0, now;
        resp, v := HandleNew(clientID, req, rxt, txt);
        NewRefines(b, clientID, req, rxt, txt, v, view);
      }
      RequestKeepsInv(Abs(b), clientID, req, rxt0, now, Abs(view), rxt, txt, resp);
      GaugesAre();
      AssignedTxIs(rxt0, rxt, now);
      RequestTimes(Abs(b), clientID, req, rxt0, now, Abs(view), rxt, txt, resp);
      RequestAnswer(Abs(b), clientID, req, rxt0, now, Abs(view), rxt, txt, resp);
      TxMovesAre(rxt0, rxt, now);
    }

    lemma LenOfKnown(c: ClientId)
      requires Viewed() && Distinct(view) && StoreInv(Abs(view)) && c in tss
      ensures Stored(tss[c]) && tss[c].key == c && tss[c].len >= 1 && c in view
    {
      StampsOfSize(view[c].pairs);
      assert Abs(view)[c] == EntryOf(view[c]);
    }

    lemma SizeWithinCap()
      requires Viewed() && StoreInv(Abs(view))
      ensures |view| == |tss| <= TSS_CAP && view.Keys == tss.Keys
    {
      AbsSize(view);
      assert |tss| == |tss.Keys| && |view| == |view.Keys|;
    }

    lemma GaugesAre()
      requires Viewed() && Counted()
      ensures tssItems == |Abs(view)| && tssValues == Total(view)
    {
      AbsSize(view);
      assert |tss| == |tss.Keys| && |view| == |view.Keys|;
    }

    /* ---- updateTXTimestamp ---- */

    // The part of updateTXTimestamp for a known client.
    method UpdateKnown(tssi: TssItem, rx: Time64, tx: Time64)
      returns (ghost x: int, ghost max0: int, ghost max1: int)
      requires Linked() && Viewed() && Counted() && Stored(tssi)
      modifies this, tssQ, tssQ.elems
      ensures Linked() && Viewed() && Counted() && tssQ.elems <= old(tssQ.elems)
      ensures PairUpdated(old(view), tssi.key, rx, tx, x, max0, max1, view)
      ensures txtIncrementsAfter == old(txtIncrementsAfter) && txtIncrementsBefore == old(txtIncrementsBefore)
      ensures rxtIncrements == old(rxtIncrements) && reqsServedInterleaved == old(reqsServedInterleaved)
    {
      hide Linked, Counted, HasValue;
      InQueue(tssi);
      ReadSlots(tssi);
      var slot, top, second := tssi.ScanTop(rx);
      x, max0, max1 := slot, top, second;
      if slot != -1 {
        if tssi.buf[slot].txt != tx {
          WriteStamp(tssi, slot, rx, tx);
        } else if tssi.len == 1 {
          RemoveItem(tssi);
        } else {
          if tssi.buf[top].rxt == rx {
            SetQval(tssi, tssi.buf[second].rxt);
            ReadSlots(tssi);
          }
          RemoveStamp(tssi, slot);
        }
      }
    }

    // The critical section of updateTXTimestamp: rxt is the receive time that
    // handleRequest assigned, txt0 the transmit time that was measured.
    method UpdateTXTimestamp(clientID: ClientId, rxt: int, txt0: int) returns (txt: int)
      requires Valid()
      modifies this, tssQ, tssQ.elems
      ensures Valid() && tssQ.elems <= old(tssQ.elems)
      ensures tssItems == |Abs(view)| && tssValues == Total(view)
      ensures UpdateStep(Abs(old(view)), clientID, rxt, txt0, Abs(view), txt)
      ensures txt0 <= txt && rxt < txt && (txt == txt0 || txt == rxt + 1)
      ensures IsFirstFrom(txt, txt0, rxt, true)
      ensures txtIncrementsAfter == old(txtIncrementsAfter) + (if rxt < txt0 then 0 else 1)
      ensures txtIncrementsBefore == old(txtIncrementsBefore)
      ensures rxtIncrements == old(rxtIncrements) && reqsServedInterleaved == old(reqsServedInterleaved)
    {
      hide Linked, Counted, HasValue, UpdateStep, IsFirstFrom, Total, Distinct, StoreInv;
      ghost var b := view;
      txt := txt0;
      if rxt >= txt {
        txt := rxt + 1;
        txtIncrementsAfter := txtIncrementsAfter + 1;
      }
      SizeWithinCap();
      if clientID in tss {
        LenOfKnown(clientID);
        ghost var x, max0, max1;
        x, max0, max1 := UpdateKnown(tss[clientID], Time64FromTime(rxt), Time64FromTime(txt));
        UpdateRefines(b, clientID, rxt, txt0, x, max0, max1, view);
      } else {
        UnknownStays(Abs(b), clientID, rxt, txt0);
      }
      UpdateKeepsInv(Abs(b), clientID, rxt, txt0, Abs(view), txt);
      GaugesAre();
      UpdateTime(Abs(b), clientID, rxt, txt0, Abs(view), txt);
    }
  }
}
