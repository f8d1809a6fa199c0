/** What happens to a measurement in interleaved mode if the server gives one time to two
    requests of a client: a concrete run in which the four stamps are not those of one
    exchange. */
module RepeatedTime {
  import opened Interleaved
  import opened NtpTime
  import opened Options
  import opened StoreSpec

  // The instants of the run are a few nanoseconds apart, in 1970.
  ghost function T(n: int): Time64 {
    Time64FromTime(n)
  }

  lemma InstantsDiffer(m: int, n: int)
    requires 0 <= m < n <= 50
    ensures T(m) != T(n) && T(m).Before(T(n))
  {
    OrderPreserved(m, n);
  }

  const NONE := Time64(0, 0)

  const TEN: Time64 := Time64FromTime(10)

  // The pair that is given twice.
  ghost function Given(a: ClientId): Key {
    Key(a, TEN)
  }

  ghost function Start(a: ClientId): State {
    State(map[], map[], map[], map[], {}, map[0 := Client(a, None, None)], map[], [])
  }

  // The client at a starts an exchange in basic mode, on socket 0.
  ghost function Sent0(a: ClientId): State {
    Start(a).(sent := map[0 := Sent(a, Request(NONE, NONE, T(0)))],
              clients := map[0 := Client(a, None, Some(Exchange(0, false, T(0))))])
  }

  ghost function Reply0(a: ClientId): Reply {
    Reply(0, 0, Response(T(11), T(0), TEN, T(11)))
  }

  // The server gives it time 10, and the client takes the response.
  ghost function Handled0(a: ClientId): State {
    Sent0(a).(store := map[a := Entry(map[TEN := T(11)], TEN)],
              writers := map[Given(a) := 0],
              handlings := map[0 := Handling(Given(a), 0, 10, [T(11)])],
              replies := {Reply0(a)})
  }

  ghost function Remembered(a: ClientId): Prev {
    Prev(T(0), T(20), TEN, 0, 0)
  }

  ghost function Accepted0(a: ClientId): State {
    Handled0(a).(clients := map[0 := Client(a, Some(Remembered(a)), None)],
                 completed := map[0 := Completed(T(0), T(20), TEN, 0)],
                 measured := [Measured(T(0), TEN, T(11), T(20), 0, 0)])
  }

  // No later transmit time is known, so the pair is removed.
  ghost function Updated(a: ClientId): State {
    Accepted0(a).(store := map[], handlings := map[0 := Handling(Given(a), 0, 10, [T(11), T(11)])])
  }

  // Another request from address a gets time 10 again.
  ghost function Sent1(a: ClientId): State {
    Updated(a).(sent := Updated(a).sent[1 := Sent(a, Request(NONE, NONE, T(5)))])
  }

  ghost function Reply1(a: ClientId): Reply {
    Reply(1, 1, Response(T(12), T(5), TEN, T(12)))
  }

  ghost function Handled1(a: ClientId): State {
    Sent1(a).(store := map[a := Entry(map[TEN := T(12)], TEN)],
              writers := map[Given(a) := 1],
              handlings := Sent1(a).handlings[1 := Handling(Given(a), 1, 10, [T(12)])],
              replies := {Reply0(a), Reply1(a)})
  }

  // The client asks for the transmit time of its first exchange, and gets that of the other
  // request.
  ghost function Sent2(a: ClientId): State {
    Handled1(a).(sent := Handled1(a).sent[2 := Sent(a, Request(TEN, T(20), T(0)))],
                 clients := map[0 := Client(a, Some(Remembered(a)), Some(Exchange(2, true, T(30))))])
  }

  ghost function Reply2(a: ClientId): Reply {
    Reply(2, 1, Response(T(41), T(20), T(40), T(12)))
  }

  ghost function Handled2(a: ClientId): State {
    Sent2(a).(store := map[a := Entry(map[T(40) := T(41)], T(40))],
              writers := Sent2(a).writers[Key(a, T(40)) := 2],
              handlings := Sent2(a).handlings[2 := Handling(Key(a, T(40)), 2, 40, [T(41)])],
              replies := Sent2(a).replies + {Reply2(a)})
  }

  // The stamps of the last measurement: t2 was taken of the response to the other request.
  ghost function Mix(): Measured {
    Measured(T(0), TEN, T(12), T(20), 0, 1)
  }

  ghost function Accepted2(a: ClientId): State {
    Handled2(a).(clients := map[0 := Client(a, Some(Prev(T(30), T(50), T(40), 2, 2)), None)],
                 completed := Handled2(a).completed[2 := Completed(T(30), T(50), T(40), 2)],
                 measured := Handled2(a).measured + [Mix()])
  }

  lemma HandlesFirst(a: ClientId)
    ensures HandleStep(Sent0(a), Handled0(a), 0, 0, 10, 11, 10, 11, Reply0(a).resp)
  {
    var s, s', req := map[], Handled0(a).store, Request(NONE, NONE, T(0));
    assert Admitted(s, a, TEN, T(11), s');
    assert RequestStep(s, a, req, 10, 11, s', 10, 11, Reply0(a).resp);
    hide RequestStep;
    assert Handled0(a).handlings == Sent0(a).handlings[0 := Handling(Given(a), 0, 10, [T(11)])];
    assert Handled0(a).writers == Sent0(a).writers[Given(a) := 0];
    assert Handled0(a).replies == Sent0(a).replies + {Reply0(a)};
  }

  lemma AcceptsFirst(a: ClientId)
    ensures AcceptStep(Handled0(a), Accepted0(a), 0, Reply0(a), T(20))
  {
    InstantsDiffer(0, 20);
    var s, s' := Handled0(a), Accepted0(a);
    var c := s.clients[0];
    var m := MeasuredBy(c, c.exchange.value, s.sent[0].req, Reply0(a), T(20));
    assert s'.measured == s.measured + [m];
    assert s'.clients == s.clients[0 := s'.clients[0]];
    assert s'.completed == s.completed[0 := Completed(T(0), T(20), TEN, 0)];
  }

  lemma UpdatesFirst(a: ClientId)
    ensures UpdatedStep(Accepted0(a), Updated(a), 0, 11, 11)
  {
    var s := Accepted0(a);
    assert s.store - {a} == map[];
    assert UpdateStep(s.store, a, 10, 11, map[], 11);
    hide UpdateStep;
    assert s.handlings[0].txs + [T(11)] == [T(11), T(11)];
    assert Updated(a).handlings == s.handlings[0 := Handling(Given(a), 0, 10, [T(11), T(11)])];
  }

  lemma HandlesOther(a: ClientId)
    ensures HandleStep(Sent1(a), Handled1(a), 1, 1, 10, 12, 10, 12, Reply1(a).resp)
  {
    var s, s', req := map[], Handled1(a).store, Request(NONE, NONE, T(5));
    assert Admitted(s, a, TEN, T(12), s');
    assert RequestStep(s, a, req, 10, 12, s', 10, 12, Reply1(a).resp);
    hide RequestStep;
    assert Handled1(a).writers == Sent1(a).writers[Given(a) := 1];
    assert Handled1(a).replies == Sent1(a).replies + {Reply1(a)};
  }

  lemma SendsInterleaved(a: ClientId)
    ensures SendStep(Handled1(a), Sent2(a), 0, 2, true, 0, T(30))
  {
  }

  lemma HandlesInterleaved(a: ClientId)
    ensures HandleStep(Sent2(a), Handled2(a), 2, 2, 40, 41, 40, 41, Reply2(a).resp)
  {
    InstantsDiffer(10, 40);
    InstantsDiffer(0, 20);
    var m := map[TEN := T(12)];
    assert m - {TEN} == map[];
    assert Recorded(m, TEN, T(40), T(41)) == map[T(40) := T(41)];
  }

  lemma AcceptsInterleaved(a: ClientId)
    ensures AcceptStep(Handled2(a), Accepted2(a), 0, Reply2(a), T(50))
  {
    InstantsDiffer(30, 50);
  }

  ghost function StateAt(a: ClientId, k: nat): State {
    match k
    case 0 => Start(a)
    case 1 => Sent0(a)
    case 2 => Handled0(a)
    case 3 => Accepted0(a)
    case 4 => Updated(a)
    case 5 => Sent1(a)
    case 6 => Handled1(a)
    case 7 => Sent2(a)
    case 8 => Handled2(a)
    case _ => Accepted2(a)
  }

  ghost function StepAt(a: ClientId, k: nat): Step {
    match k
    case 0 => Send(0, 0, false, 0, T(0))
    case 1 => Handle(0, 0, 10, 11, 10, 11, Reply0(a).resp)
    case 2 => Accept(0, Reply0(a), T(20))
    case 3 => Update(0, 11, 11)
    case 4 => Stray(1, a, Request(NONE, NONE, T(5)))
    case 5 => Handle(1, 1, 10, 12, 10, 12, Reply1(a).resp)
    case 6 => Send(0, 2, true, 0, T(30))
    case 7 => Handle(2, 2, 40, 41, 40, 41, Reply2(a).resp)
    case _ => Accept(0, Reply2(a), T(50))
  }

  lemma StartSends(a: ClientId)
    ensures SendStep(Start(a), Sent0(a), 0, 0, false, 0, T(0))
    ensures StrayStep(Updated(a), Sent1(a), 1, a, Request(NONE, NONE, T(5)))
  {
  }

  lemma IsNext(a: ClientId, k: nat)
    requires k < 9
    ensures Next(StateAt(a, k), StateAt(a, k + 1), StepAt(a, k))
  {
    hide SendStep, StrayStep, HandleStep, UpdatedStep, AcceptStep;
    hide Start, Sent0, Handled0, Accepted0, Updated, Sent1, Handled1, Sent2, Handled2, Accepted2;
    StartSends(a);
    HandlesFirst(a);
    AcceptsFirst(a);
    UpdatesFirst(a);
    HandlesOther(a);
    SendsInterleaved(a);
    HandlesInterleaved(a);
    AcceptsInterleaved(a);
  }

  lemma FirstIsNew(a: ClientId)
    ensures HasNewTime(Sent0(a), StepAt(a, 1))
  {
  }

  lemma OtherIsOld(a: ClientId)
    ensures !HasNewTime(Sent1(a), StepAt(a, 5))
  {
    assert 0 in Sent1(a).handlings && Sent1(a).handlings[0].key == Given(a);
    assert FirstFree(StoredTimes(Sent1(a).store, a), 10) == 10;
  }

  lemma FortyIsFree()
    ensures FirstFree({TEN}, 40) == 40 && T(40) != TEN
  {
    InstantsDiffer(10, 40);
  }

  lemma InterleavedIsNew(a: ClientId)
    ensures HasNewTime(Sent2(a), StepAt(a, 7))
  {
    FortyIsFree();
    hide FirstFree, Time64FromTime, TEN;
    var s := Sent2(a);
    assert s.sent[2].client == a;
    assert StoredTimes(s.store, a) == {TEN};
  }

  lemma NewTimes(a: ClientId, k: nat)
    requires k < 9
    ensures HasNewTime(StateAt(a, k), StepAt(a, k)) <==> k != 5
  {
    if k == 1 {
      FirstIsNew(a);
    } else if k == 5 {
      OtherIsOld(a);
    } else if k == 7 {
      InterleavedIsNew(a);
    }
    hide Start, Sent0, Handled0, Accepted0, Updated, Sent1, Handled1, Sent2, Handled2, Accepted2, GetsNewTime;
  }

  lemma Starts(a: ClientId)
    ensures Init(StateAt(a, 0))
  {
  }

  // A run of nine steps, of which only the second handling gives an old time. All
  // measurements are from one exchange before the last step, which combines the stamps of an
  // exchange with one that was taken of a response on another socket.
  lemma RunMixesExchanges(a: ClientId) returns (run: seq<State>, steps: seq<Step>)
    ensures IsRun(run, steps) && |steps| == 9
    ensures forall k :: 0 <= k < 9 ==> (HasNewTime(run[k], steps[k]) <==> k != 5)
    ensures forall k :: 0 <= k < 9 ==> Safe(run[k])
    ensures !Safe(run[9]) && run[9].measured == run[8].measured + [Mix()]
    ensures Mix().stamper in run[9].handlings && run[9].handlings[Mix().stamper].socket != Mix().socket
    ensures Mix().socket in run[9].completed && run[9].completed[Mix().socket].h in run[9].handlings
    ensures Mix().t2 !in run[9].handlings[run[9].completed[Mix().socket].h].txs
  {
    hide Next, HasNewTime, Safe, StateAt, StepAt, Init;
    run, steps := seq(10, k requires 0 <= k => StateAt(a, k)), seq(9, k requires 0 <= k => StepAt(a, k));
    Starts(a);
    Mixes(a);
    forall k | 0 <= k < 9
      ensures Next(run[k], run[k + 1], steps[k]) && (HasNewTime(run[k], steps[k]) <==> k != 5) && Safe(run[k])
    {
      IsNext(a, k);
      NewTimes(a, k);
      SafeBefore(a, k);
    }
  }

  lemma SafeBefore(a: ClientId, k: nat)
    requires k < 9
    ensures Safe(StateAt(a, k))
  {
    hide Safe, Time64FromTime, TEN;
    var s := StateAt(a, k);
    if k < 3 {
      assert s.measured == [];
      NoneMeasured(s);
    } else {
      assert s.measured == Accepted0(a).measured && s.completed == Accepted0(a).completed;
      FirstHandling(a, k);
      OneMeasured(s, a);
    }
  }

  lemma FirstHandling(a: ClientId, k: nat)
    requires 3 <= k < 9
    ensures var hs := StateAt(a, k).handlings;
      0 in hs && hs[0].key == Given(a) && hs[0].socket == 0 && T(11) in hs[0].txs
  {
    hide T, TEN, Given, Reply0, Reply1, Reply2, Remembered;
    var first := Updated(a).handlings;
    assert first[0].txs[0] == T(11);
    if k == 8 {
      assert StateAt(a, k).handlings == Handled1(a).handlings[2 := Handling(Key(a, T(40)), 2, 40, [T(41)])];
    } else if k >= 6 {
      assert StateAt(a, k).handlings == Handled1(a).handlings;
    } else if k >= 4 {
      assert StateAt(a, k).handlings == first;
    }
  }

  lemma NoneMeasured(s: State)
    requires s.measured == []
    ensures Safe(s)
  {
  }

  lemma OneMeasured(s: State, a: ClientId)
    requires s.measured == Accepted0(a).measured && s.completed == Accepted0(a).completed
    requires 0 in s.handlings && s.handlings[0].key == Given(a) && s.handlings[0].socket == 0
    requires T(11) in s.handlings[0].txs
    ensures Safe(s)
  {
    hide Time64FromTime, TEN;
  }

  lemma Mixes(a: ClientId)
    ensures var s := StateAt(a, 9);
      && !Safe(s) && s.measured == StateAt(a, 8).measured + [Mix()]
      && s.handlings.Keys == {0, 1, 2} && s.handlings[1].socket == 1
      && 0 in s.completed && s.completed[0].h == 0 && Mix().t2 !in s.handlings[0].txs
  {
    InstantsDiffer(11, 12);
    assert !FromOneExchange(Accepted2(a), Accepted2(a).measured[1]);
  }
}
