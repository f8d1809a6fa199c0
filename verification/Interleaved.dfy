/** NTP clients and one server composed over a network that loses, reorders and
    duplicates packets, with the interleaved mode of RFC 9769: the steps of
    core/client/client_ip.go and of core/server/server.go, in any interleaving. */
module Interleaved {
  import opened NtpTime
  import opened Options
  import opened StoreSpec

  type Socket = nat

  // A request as sent: every exchange uses a fresh socket and sends one request.
  datatype Sent = Sent(client: ClientId, req: Request)

  // What the server's store tells pairs apart by: the address of a client and a receive time.
  datatype Key = Key(client: ClientId, rx: Time64)

  // The server handles every received copy of a request by itself; handlings are numbered. A
  // handling has the address and the time assigned, the socket where its response goes, and
  // the transmit stamps taken of the response, the latest one last.
  datatype Handling = Handling(key: Key, socket: Socket, rxt: int, txs: seq<Time64>)

  // A response on the network, sent by handling h, with a transmit stamp taken by handling
  // from.
  datatype Reply = Reply(h: nat, from: nat, resp: Response)

  // What a client remembers of the last exchange (prev in the program), with the
  // exchange it is from and the handling that answered it.
  datatype Prev = Prev(cTx: Time64, cRx: Time64, sRx: Time64, socket: Socket, h: nat)

  // The exchange a client is in: its transmit stamp is taken after sending.
  datatype Exchange = Exchange(socket: Socket, interleaved: bool, cTx: Time64)

  datatype Client = Client(addr: ClientId, prev: Option<Prev>, exchange: Option<Exchange>)

  // The client's three stamps of a completed exchange and the handling that answered it.
  datatype Completed = Completed(cTx: Time64, cRx: Time64, sRx: Time64, h: nat)

  // A measurement: four stamps for the offset and delay computation, the exchange that they
  // should be from, and the handling that took t2.
  datatype Measured = Measured(t0: Time64, t1: Time64, t2: Time64, t3: Time64, socket: Socket, stamper: nat)

  // writers: the handling that wrote the transmit time of a pair last.
  datatype State = State(
    store: Store,
    writers: map<Key, nat>,
    sent: map<Socket, Sent>,
    handlings: map<nat, Handling>,
    replies: set<Reply>,
    clients: map<nat, Client>,
    completed: map<Socket, Completed>,
    measured: seq<Measured>)

  /* ---- The client ---- */

  // The request of a client: an interleaved one carries what the client remembers.
  ghost function RequestOf(c: Client, interleaved: bool, cTx0: int): Request
    requires interleaved ==> c.prev.Some?
  {
    if interleaved then Request(c.prev.value.sRx, c.prev.value.cRx, c.prev.value.cTx)
    else Request(Time64(0, 0), Time64(0, 0), Time64FromTime(cTx0))
  }

  // How the client takes a response: as interleaved, as basic, or not at all.
  ghost predicate TakenInterleaved(interleaved: bool, req: Request, resp: Response) {
    interleaved && resp.origin == req.receive
  }

  ghost predicate Taken(interleaved: bool, req: Request, resp: Response) {
    TakenInterleaved(interleaved, req, resp) || resp.origin == req.transmit
  }

  // The stamps that the client measures with.
  ghost function MeasuredBy(c: Client, e: Exchange, req: Request, reply: Reply, cRx: Time64): Measured
    requires e.interleaved ==> c.prev.Some?
  {
    var resp := reply.resp;
    if TakenInterleaved(e.interleaved, req, resp)
    then Measured(c.prev.value.cTx, c.prev.value.sRx, resp.transmit, c.prev.value.cRx, c.prev.value.socket, reply.from)
    else Measured(e.cTx, resp.receive, resp.transmit, cRx, e.socket, reply.from)
  }

  /* ---- Steps ---- */

  datatype Step =
    | Send(p: nat, socket: Socket, interleaved: bool, cTx0: int, cTx: Time64)
    | Stray(socket: Socket, client: ClientId, req: Request)
    | Handle(h: nat, socket: Socket, rxt0: int, now: int, rxt: int, txt: int, resp: Response)
    | Update(h: nat, txt0: int, txt: int)
    | Accept(p: nat, reply: Reply, cRx: Time64)
    | GiveUp(p: nat)
    | Forget(p: nat)

  ghost predicate Init(s: State) {
    && s.store == map[] && s.writers == map[] && s.sent == map[] && s.handlings == map[] && s.replies == {}
    && s.completed == map[] && s.measured == []
    && forall p | p in s.clients :: s.clients[p].prev == None && s.clients[p].exchange == None
  }

  // A client starts an exchange on a fresh socket.
  ghost predicate SendStep(s: State, s': State, p: nat, socket: Socket, interleaved: bool, cTx0: int, cTx: Time64) {
    && p in s.clients && s.clients[p].exchange == None && socket !in s.sent
    && (interleaved ==> s.clients[p].prev.Some?)
    && var c := s.clients[p];
       s' == s.(
         sent := s.sent[socket := Sent(c.addr, RequestOf(c, interleaved, cTx0))],
         clients := s.clients[p := c.(exchange := Some(Exchange(socket, interleaved, cTx)))])
  }

  // Any other program sends any request, also from the address of a client.
  ghost predicate StrayStep(s: State, s': State, socket: Socket, client: ClientId, req: Request) {
    && socket !in s.sent
    && s' == s.(sent := s.sent[socket := Sent(client, req)])
  }

  // The handling that took the transmit stamp which handling h sends for a request.
  ghost function SentFrom(s: State, h: nat, m: Sent): nat {
    var k := Key(m.client, m.req.origin);
    if ServedInterleaved(s.store, m.client, m.req) && k in s.writers then s.writers[k] else h
  }

  // The server handles a copy of a request and sends its response.
  ghost predicate HandleStep(s: State, s': State, h: nat, socket: Socket, rxt0: int, now: int,
                             rxt: int, txt: int, resp: Response)
  {
    && socket in s.sent && h !in s.handlings
    && var m := s.sent[socket];
       var k := Key(m.client, Time64FromTime(rxt));
    && RequestStep(s.store, m.client, m.req, rxt0, now, s'.store, rxt, txt, resp)
    && s' == s.(
         store := s'.store,
         writers := s.writers[k := h],
         handlings := s.handlings[h := Handling(k, socket, rxt, [Time64FromTime(txt)])],
         replies := s.replies + {Reply(h, SentFrom(s, h, m), resp)})
  }

  ghost predicate IsStored(s: Store, k: Key) {
    k.client in s && k.rx in s[k.client].stamps
  }

  // The server updates the transmit time of a response after sending it.
  ghost predicate UpdatedStep(s: State, s': State, h: nat, txt0: int, txt: int) {
    && h in s.handlings
    && var g := s.handlings[h];
    && UpdateStep(s.store, g.key.client, g.rxt, txt0, s'.store, txt)
    && s' == s.(
         store := s'.store,
         writers := if IsStored(s'.store, g.key) then s.writers[g.key := h] else s.writers,
         handlings := s.handlings[h := g.(txs := g.txs + [Time64FromTime(txt)])])
  }

  // A client takes a response that arrived on the socket of its exchange. Its receive
  // stamp differs from its transmit stamp.
  ghost predicate AcceptStep(s: State, s': State, p: nat, reply: Reply, cRx: Time64) {
    && p in s.clients && s.clients[p].exchange.Some?
    && reply in s.replies && reply.h in s.handlings
    && var c := s.clients[p];
       var e := c.exchange.value;
    && s.handlings[reply.h].socket == e.socket && e.socket in s.sent
    && (e.interleaved ==> c.prev.Some?)
    && var req := s.sent[e.socket].req;
    && Taken(e.interleaved, req, reply.resp)
    && cRx != e.cTx
    && s' == s.(
         clients := s.clients[p := c.(
           prev := Some(Prev(e.cTx, cRx, reply.resp.receive, e.socket, reply.h)),
           exchange := None)],
         completed := s.completed[e.socket := Completed(e.cTx, cRx, reply.resp.receive, reply.h)],
         measured := s.measured + [MeasuredBy(c, e, req, reply, cRx)])
  }

  // A client ends its exchange without a response.
  ghost predicate GiveUpStep(s: State, s': State, p: nat) {
    && p in s.clients
    && s' == s.(clients := s.clients[p := s.clients[p].(exchange := None)])
  }

  // A client between exchanges forgets the last one: it was reset, or went to another
  // server in the meantime.
  ghost predicate ForgetStep(s: State, s': State, p: nat) {
    && p in s.clients && s.clients[p].exchange == None
    && s' == s.(clients := s.clients[p := s.clients[p].(prev := None)])
  }

  ghost predicate Next(s: State, s': State, step: Step) {
    match step
    case Send(p, socket, interleaved, cTx0, cTx) => SendStep(s, s', p, socket, interleaved, cTx0, cTx)
    case Stray(socket, client, req) => StrayStep(s, s', socket, client, req)
    case Handle(h, socket, rxt0, now, rxt, txt, resp) => HandleStep(s, s', h, socket, rxt0, now, rxt, txt, resp)
    case Update(h, txt0, txt) => UpdatedStep(s, s', h, txt0, txt)
    case Accept(p, reply, cRx) => AcceptStep(s, s', p, reply, cRx)
    case GiveUp(p) => GiveUpStep(s, s', p)
    case Forget(p) => ForgetStep(s, s', p)
  }

  /* ---- What the client sends and keeps ---- */

  // An interleaved request carries the server's receive time, the client's receive time and
  // the client's transmit time of the last exchange, in this order; a basic one carries the
  // time at which it was made.
  lemma SendCarries(s: State, s': State, p: nat, socket: Socket, interleaved: bool, cTx0: int, cTx: Time64)
    requires SendStep(s, s', p, socket, interleaved, cTx0, cTx)
    ensures socket in s'.sent && p in s'.clients
    ensures var req, c := s'.sent[socket].req, s.clients[p];
      && s'.sent[socket].client == c.addr
      && s'.clients[p] == c.(exchange := Some(Exchange(socket, interleaved, cTx)))
      && if interleaved
         then
           && c.prev.Some? && req.origin == c.prev.value.sRx
           && req.receive == c.prev.value.cRx && req.transmit == c.prev.value.cTx
         else req.origin == req.receive == Time64(0, 0) && req.transmit == Time64FromTime(cTx0)
  {
  }

  // A response counts if it refers to the receive time in an interleaved request, or to the
  // transmit time. In the first case it completes the last exchange, in the second this one;
  // the client remembers this one, with the stamps that it took.
  lemma AcceptKeeps(s: State, s': State, p: nat, reply: Reply, cRx: Time64)
    requires AcceptStep(s, s', p, reply, cRx)
    ensures p in s'.clients && s'.measured != [] && s'.measured[..|s'.measured| - 1] == s.measured
    ensures var c, e, resp := s.clients[p], s.clients[p].exchange.value, reply.resp;
      var req, m := s.sent[e.socket].req, s'.measured[|s'.measured| - 1];
      && s'.clients[p].exchange == None && s'.clients[p].addr == c.addr
      && s'.clients[p].prev == Some(Prev(e.cTx, cRx, resp.receive, e.socket, reply.h))
      && m.t2 == resp.transmit
      && if e.interleaved && resp.origin == req.receive
         then
           && c.prev.Some? && m.socket == c.prev.value.socket
           && m.t0 == c.prev.value.cTx && m.t1 == c.prev.value.sRx && m.t3 == c.prev.value.cRx
         else
           && resp.origin == req.transmit && m.socket == e.socket
           && m.t0 == e.cTx && m.t1 == resp.receive && m.t3 == cRx
  {
  }

  /* ---- The safety property ---- */

  // Three stamps of a measurement are those of one exchange: the client's two and the receive
  // time that the server assigned when it handled the request of that exchange. The fourth is
  // a transmit stamp of a handling with the same address and receive time.
  ghost predicate IsTraced(s: State, m: Measured) {
    && m.socket in s.completed
    && var e := s.completed[m.socket];
    && m.t0 == e.cTx && m.t1 == e.sRx && m.t3 == e.cRx
    && e.h in s.handlings && s.handlings[e.h].socket == m.socket && m.t1 == s.handlings[e.h].key.rx
    && m.stamper in s.handlings && m.t2 in s.handlings[m.stamper].txs
    && s.handlings[m.stamper].key == s.handlings[e.h].key
  }

  // All four stamps are from one exchange: the handling that took the transmit stamp is the
  // one whose response the client accepted in it.
  ghost predicate FromOneExchange(s: State, m: Measured) {
    IsTraced(s, m) && m.stamper == s.completed[m.socket].h
  }

  ghost predicate Safe(s: State) {
    forall i | 0 <= i < |s.measured| :: FromOneExchange(s, s.measured[i])
  }

  /* ---- Invariants ---- */

  ghost predicate HandlingOk(s: State, h: nat) {
    && h in s.handlings
    && var g := s.handlings[h];
    && g.socket in s.sent && s.sent[g.socket].client == g.key.client
    && Time64FromTime(g.rxt) == g.key.rx && g.txs != []
  }

  // A pair in the store: its transmit time is the latest stamp of its writer, which has the
  // address and the receive time of the pair.
  ghost predicate PairOk(s: State, k: Key)
    requires IsStored(s.store, k)
  {
    && k in s.writers && s.writers[k] in s.handlings
    && var g := s.handlings[s.writers[k]];
    && g.key == k && g.txs != [] && g.txs[|g.txs| - 1] == s.store[k.client].stamps[k.rx]
  }

  ghost predicate StoreOk(s: State) {
    forall k | IsStored(s.store, k) :: PairOk(s, k)
  }

  // A reply gives the transmit time of its own handling, or that of a handling with the
  // receive time that the request quotes.
  ghost predicate ReplyOk(s: State, r: Reply) {
    && HandlingOk(s, r.h)
    && r.resp.receive == s.handlings[r.h].key.rx
    && r.from in s.handlings && r.resp.transmit in s.handlings[r.from].txs
    && var g := s.handlings[r.h];
       var req := s.sent[g.socket].req;
    || (r.resp.origin == req.transmit && r.from == r.h)
    || (r.resp.origin == req.receive && req.receive != req.transmit &&
        s.handlings[r.from].key == Key(g.key.client, req.origin))
  }

  ghost predicate PrevOk(s: State, addr: ClientId, v: Prev) {
    && v.socket in s.completed && s.completed[v.socket] == Completed(v.cTx, v.cRx, v.sRx, v.h)
    && v.h in s.handlings && s.handlings[v.h].socket == v.socket && s.handlings[v.h].key == Key(addr, v.sRx)
    && v.cTx != v.cRx
  }

  ghost predicate ExchangeOk(s: State, c: Client, e: Exchange) {
    && e.socket in s.sent && s.sent[e.socket].client == c.addr
    && e.socket !in s.completed
    && (e.interleaved ==> c.prev.Some? && s.sent[e.socket].req == RequestOf(c, true, 0))
  }

  ghost predicate ClientOk(s: State, c: Client) {
    && (c.prev.Some? ==> PrevOk(s, c.addr, c.prev.value))
    && (c.exchange.Some? ==> ExchangeOk(s, c, c.exchange.value))
  }

  ghost predicate OwnSockets(s: State) {
    forall p, q | p in s.clients && q in s.clients && p != q ::
      s.clients[p].exchange.Some? && s.clients[q].exchange.Some? ==>
        s.clients[p].exchange.value.socket != s.clients[q].exchange.value.socket
  }

  ghost predicate Inv(s: State) {
    && StoreInv(s.store) && StoreOk(s)
    && (forall h | h in s.handlings :: HandlingOk(s, h))
    && (forall r | r in s.replies :: ReplyOk(s, r))
    && (forall p | p in s.clients :: ClientOk(s, s.clients[p]))
    && (forall e | e in s.completed :: e in s.sent)
    && OwnSockets(s)
    && (forall i | 0 <= i < |s.measured| :: IsTraced(s, s.measured[i]))
  }

  /* ---- What steps only add to ---- */

  ghost predicate Extends(s: State, s': State) {
    && (forall e | e in s.sent :: e in s'.sent && s'.sent[e] == s.sent[e])
    && (forall h | h in s.handlings ::
          && h in s'.handlings
          && s'.handlings[h].key == s.handlings[h].key
          && s'.handlings[h].socket == s.handlings[h].socket
          && s'.handlings[h].rxt == s.handlings[h].rxt
          && s.handlings[h].txs <= s'.handlings[h].txs)
    && (forall e | e in s.completed :: e in s'.completed && s'.completed[e] == s.completed[e])
  }

  // What was so stays so where a step only adds.
  lemma StaysOk(s: State, s': State)
    requires Extends(s, s')
    ensures forall h | HandlingOk(s, h) :: HandlingOk(s', h)
    ensures forall r | ReplyOk(s, r) :: ReplyOk(s', r)
    ensures forall a, v | PrevOk(s, a, v) :: PrevOk(s', a, v)
    ensures forall m | IsTraced(s, m) :: IsTraced(s', m) && (FromOneExchange(s', m) <==> FromOneExchange(s, m))
  {
  }

  lemma ClientsStayOk(s: State, s': State)
    requires Inv(s) && Extends(s, s') && s'.clients == s.clients && s'.completed == s.completed
    ensures forall p | p in s'.clients :: ClientOk(s', s'.clients[p])
    ensures OwnSockets(s')
  {
    StaysOk(s, s');
    forall p | p in s'.clients ensures ClientOk(s', s'.clients[p]) {
      assert ClientOk(s, s.clients[p]);
    }
  }

  lemma StoreStaysOk(s: State, s': State)
    requires StoreOk(s) && s'.store == s.store && s'.writers == s.writers && s'.handlings == s.handlings
    ensures StoreOk(s')
  {
    forall k | IsStored(s'.store, k) ensures PairOk(s', k) {
      assert PairOk(s, k);
    }
  }

  /* ---- Steps of the clients ---- */

  lemma SendKeepsClient(s: State, s': State, p: nat, socket: Socket, interleaved: bool, cTx0: int, cTx: Time64, q: nat)
    requires SendStep(s, s', p, socket, interleaved, cTx0, cTx) && Extends(s, s') && q in s.clients
    requires ClientOk(s, s.clients[q]) && forall e | e in s.completed :: e in s.sent
    ensures ClientOk(s', s'.clients[q])
    ensures s.clients[q].exchange.Some? ==> s.clients[q].exchange.value.socket != socket
  {
  }

  lemma SendExtends(s: State, s': State, p: nat, socket: Socket, interleaved: bool, cTx0: int, cTx: Time64)
    requires SendStep(s, s', p, socket, interleaved, cTx0, cTx)
    ensures Extends(s, s')
  {
  }

  lemma SendKeepsSockets(s: State, s': State, p: nat, socket: Socket, interleaved: bool, cTx0: int, cTx: Time64)
    requires SendStep(s, s', p, socket, interleaved, cTx0, cTx) && OwnSockets(s)
    requires forall q | q in s.clients && s.clients[q].exchange.Some? :: s.clients[q].exchange.value.socket != socket
    ensures OwnSockets(s')
  {
  }

  lemma SendKeepsInv(s: State, s': State, p: nat, socket: Socket, interleaved: bool, cTx0: int, cTx: Time64)
    requires Inv(s) && SendStep(s, s', p, socket, interleaved, cTx0, cTx)
    ensures Inv(s')
  {
    hide ReplyOk, HandlingOk, IsTraced, FromOneExchange, ClientOk, OwnSockets, Extends, StoreInv, StoreOk;
    SendExtends(s, s', p, socket, interleaved, cTx0, cTx);
    forall q | q in s.clients
      ensures ClientOk(s', s'.clients[q])
      ensures s.clients[q].exchange.Some? ==> s.clients[q].exchange.value.socket != socket
    {
      SendKeepsClient(s, s', p, socket, interleaved, cTx0, cTx, q);
    }
    SendKeepsSockets(s, s', p, socket, interleaved, cTx0, cTx);
    StaysOk(s, s');
    StoreStaysOk(s, s');
  }

  lemma StrayExtends(s: State, s': State, socket: Socket, client: ClientId, req: Request)
    requires StrayStep(s, s', socket, client, req)
    ensures Extends(s, s')
  {
  }

  lemma StrayKeepsInv(s: State, s': State, socket: Socket, client: ClientId, req: Request)
    requires Inv(s) && StrayStep(s, s', socket, client, req)
    ensures Inv(s')
  {
    hide ReplyOk, HandlingOk, IsTraced, FromOneExchange, ClientOk, OwnSockets, Extends, StoreInv, StoreOk;
    StrayExtends(s, s', socket, client, req);
    ClientsStayOk(s, s');
    StaysOk(s, s');
    StoreStaysOk(s, s');
  }

  lemma LeaveKeepsInv(s: State, s': State, p: nat)
    requires Inv(s) && (GiveUpStep(s, s', p) || ForgetStep(s, s', p))
    ensures Inv(s')
  {
    hide ReplyOk, HandlingOk, IsTraced, FromOneExchange, StoreInv, StoreOk, PrevOk, ExchangeOk;
    StaysOk(s, s');
    StoreStaysOk(s, s');
    hide Extends;
    forall q | q in s'.clients ensures ClientOk(s', s'.clients[q]) {
      assert ClientOk(s, s.clients[q]);
      LeaveKeepsClient(s, s', q);
    }
  }

  lemma LeaveKeepsClient(s: State, s': State, q: nat)
    requires q in s.clients && q in s'.clients && ClientOk(s, s.clients[q])
    requires s'.sent == s.sent && s'.handlings == s.handlings && s'.completed == s.completed
    requires || s'.clients[q] == s.clients[q]
             || s'.clients[q] == s.clients[q].(exchange := None)
             || (s.clients[q].exchange == None && s'.clients[q] == s.clients[q].(prev := None))
    ensures ClientOk(s', s'.clients[q])
  {
  }

  // The heart of the matter: whichever way the client takes the response, three stamps are
  // those of one exchange. All four are, exactly if the response was taken as a basic one or
  // gives a stamp of the handling that the client remembers.
  lemma AcceptIsExact(s: State, s': State, p: nat, reply: Reply, cRx: Time64)
    requires Inv(s) && AcceptStep(s, s', p, reply, cRx)
    ensures Extends(s, s')
    ensures var c := s.clients[p];
      var e := c.exchange.value;
      var req := s.sent[e.socket].req;
      var m := MeasuredBy(c, e, req, reply, cRx);
      && IsTraced(s', m)
      && (FromOneExchange(s', m) <==>
            (TakenInterleaved(e.interleaved, req, reply.resp) ==> reply.from == c.prev.value.h))
  {
    assert ClientOk(s, s.clients[p]);
    assert ReplyOk(s, reply);
  }

  lemma AcceptKeepsClients(s: State, s': State, p: nat, reply: Reply, cRx: Time64)
    requires Inv(s) && AcceptStep(s, s', p, reply, cRx)
    ensures forall q | q in s'.clients :: ClientOk(s', s'.clients[q])
  {
    AcceptIsExact(s, s', p, reply, cRx);
    StaysOk(s, s');
    assert ClientOk(s, s.clients[p]) && ReplyOk(s, reply);
    forall q | q in s'.clients ensures ClientOk(s', s'.clients[q]) {
      assert ClientOk(s, s.clients[q]);
    }
  }

  lemma AcceptKeepsInv(s: State, s': State, p: nat, reply: Reply, cRx: Time64)
    requires Inv(s) && AcceptStep(s, s', p, reply, cRx)
    ensures Inv(s')
  {
    hide ReplyOk, HandlingOk, IsTraced, FromOneExchange, Extends, StoreInv, StoreOk;
    assert ClientOk(s, s.clients[p]);
    hide ClientOk;
    AcceptKeepsClients(s, s', p, reply, cRx);
    AcceptIsExact(s, s', p, reply, cRx);
    StaysOk(s, s');
    StoreStaysOk(s, s');
  }

  /* ---- Steps of the server ---- */

  // Every pair of the store still comes from its writer after a request.
  lemma HandleKeepsPair(s: State, s': State, h: nat, g: Handling, k: Key)
    requires h !in s.handlings && s'.handlings == s.handlings[h := g] && s'.writers == s.writers[g.key := h]
    requires IsStored(s'.store, k) && g.txs != []
    requires if k == g.key then s'.store[k.client].stamps[k.rx] == g.txs[|g.txs| - 1]
             else
               && IsStored(s.store, k) && PairOk(s, k)
               && s'.store[k.client].stamps[k.rx] == s.store[k.client].stamps[k.rx]
    ensures PairOk(s', k)
  {
  }

  lemma HandleKeepsStore(s: State, s': State, h: nat, socket: Socket, rxt0: int, now: int, rxt: int, txt: int,
                         resp: Response)
    requires StoreInv(s.store) && StoreOk(s) && HandleStep(s, s', h, socket, rxt0, now, rxt, txt, resp)
    ensures StoreInv(s'.store) && StoreOk(s')
  {
    var m := s.sent[socket];
    hide RequestStep, StoreInv, PairOk, SentFrom;
    RequestKeepsInv(s.store, m.client, m.req, rxt0, now, s'.store, rxt, txt, resp);
    forall k | IsStored(s'.store, k) ensures PairOk(s', k) {
      RequestPair(s.store, m.client, m.req, rxt0, now, s'.store, rxt, txt, resp, k.client, k.rx);
      HandleKeepsPair(s, s', h, s'.handlings[h], k);
    }
  }

  lemma HandleReplyOk(s: State, s': State, h: nat, socket: Socket, rxt0: int, now: int, rxt: int, txt: int,
                      resp: Response)
    requires StoreOk(s) && HandleStep(s, s', h, socket, rxt0, now, rxt, txt, resp)
    ensures Extends(s, s')
    ensures ReplyOk(s', Reply(h, SentFrom(s, h, s.sent[socket]), resp))
  {
    var m := s.sent[socket];
    if ServedInterleaved(s.store, m.client, m.req) {
      assert PairOk(s, Key(m.client, m.req.origin));
    }
  }

  lemma HandleKeepsInv(s: State, s': State, h: nat, socket: Socket, rxt0: int, now: int, rxt: int, txt: int,
                       resp: Response)
    requires Inv(s) && HandleStep(s, s', h, socket, rxt0, now, rxt, txt, resp)
    ensures Inv(s')
  {
    hide ReplyOk, HandlingOk, IsTraced, FromOneExchange, ClientOk, OwnSockets, Extends, StoreInv, StoreOk;
    hide RequestStep, SentFrom;
    HandleReplyOk(s, s', h, socket, rxt0, now, rxt, txt, resp);
    HandleKeepsStore(s, s', h, socket, rxt0, now, rxt, txt, resp);
    StaysOk(s, s');
    ClientsStayOk(s, s');
    NewHandlingOk(s, s', h, socket, rxt, txt);
  }

  lemma NewHandlingOk(s: State, s': State, h: nat, socket: Socket, rxt: int, txt: int)
    requires socket in s.sent && s'.sent == s.sent && h !in s.handlings
    requires var k := Key(s.sent[socket].client, Time64FromTime(rxt));
      s'.handlings == s.handlings[h := Handling(k, socket, rxt, [Time64FromTime(txt)])]
    ensures HandlingOk(s', h)
  {
  }

  lemma UpdateKeepsStore(s: State, s': State, h: nat, txt0: int, txt: int)
    requires StoreInv(s.store) && StoreOk(s) && HandlingOk(s, h) && UpdatedStep(s, s', h, txt0, txt)
    ensures StoreInv(s'.store) && StoreOk(s')
  {
    var g := s.handlings[h];
    hide UpdateStep, StoreInv;
    UpdateKeepsInv(s.store, g.key.client, g.rxt, txt0, s'.store, txt);
    forall k | IsStored(s'.store, k) ensures PairOk(s', k) {
      UpdatePair(s.store, g.key.client, g.rxt, txt0, s'.store, txt, k.client, k.rx);
      assert PairOk(s, k);
    }
  }

  lemma UpdateExtends(s: State, s': State, h: nat, txt0: int, txt: int)
    requires UpdatedStep(s, s', h, txt0, txt)
    ensures Extends(s, s')
  {
  }

  lemma UpdatedKeepsInv(s: State, s': State, h: nat, txt0: int, txt: int)
    requires Inv(s) && UpdatedStep(s, s', h, txt0, txt)
    ensures Inv(s')
  {
    hide ReplyOk, HandlingOk, IsTraced, FromOneExchange, ClientOk, OwnSockets, Extends, StoreInv, StoreOk, UpdateStep;
    UpdateExtends(s, s', h, txt0, txt);
    UpdateKeepsStore(s, s', h, txt0, txt);
    StaysOk(s, s');
    ClientsStayOk(s, s');
  }

  /* ---- All runs ---- */

  lemma StepKeepsInv(s: State, s': State, step: Step)
    requires Inv(s) && Next(s, s', step)
    ensures Inv(s')
  {
    match step
    case Send(p, socket, interleaved, cTx0, cTx) => SendKeepsInv(s, s', p, socket, interleaved, cTx0, cTx);
    case Stray(socket, client, req) => StrayKeepsInv(s, s', socket, client, req);
    case Handle(h, socket, rxt0, now, rxt, txt, resp) => HandleKeepsInv(s, s', h, socket, rxt0, now, rxt, txt, resp);
    case Update(h, txt0, txt) => UpdatedKeepsInv(s, s', h, txt0, txt);
    case Accept(p, reply, cRx) => AcceptKeepsInv(s, s', p, reply, cRx);
    case GiveUp(p) => LeaveKeepsInv(s, s', p);
    case Forget(p) => LeaveKeepsInv(s, s', p);
  }

  ghost predicate IsRun(run: seq<State>, steps: seq<Step>) {
    && |run| == |steps| + 1
    && Init(run[0])
    && forall i | 0 <= i < |steps| :: Next(run[i], run[i + 1], steps[i])
  }

  // In every state of every run, all measurements so far are traced to one exchange, but for
  // the transmit stamp.
  lemma {:induction false} RunKeepsInv(run: seq<State>, steps: seq<Step>, i: nat)
    requires IsRun(run, steps) && i < |run|
    ensures Inv(run[i])
  {
    if i > 0 {
      RunKeepsInv(run, steps, i - 1);
      StepKeepsInv(run[i - 1], run[i], steps[i - 1]);
    }
  }

  // The measurement that an accepted response gives.
  ghost function Gives(s: State, step: Step): Measured
    requires step.Accept? && step.p in s.clients && s.clients[step.p].exchange.Some?
    requires s.clients[step.p].exchange.value.socket in s.sent
    requires s.clients[step.p].exchange.value.interleaved ==> s.clients[step.p].prev.Some?
  {
    var c := s.clients[step.p];
    MeasuredBy(c, c.exchange.value, s.sent[c.exchange.value.socket].req, step.reply, step.cRx)
  }

  // In every run, a measurement is from one exchange exactly if the response was taken as a
  // basic one or was served from a pair that the handling wrote which the client remembers;
  // and that stays so.
  lemma {:induction false} RunIsExact(run: seq<State>, steps: seq<Step>, k: nat, i: nat)
    requires IsRun(run, steps) && k < i < |run| && steps[k].Accept?
    ensures AcceptStep(run[k], run[k + 1], steps[k].p, steps[k].reply, steps[k].cRx)
    ensures var s := run[k];
      var c := s.clients[steps[k].p];
      var e := c.exchange.value;
      && IsTraced(run[i], Gives(s, steps[k]))
      && (FromOneExchange(run[i], Gives(s, steps[k])) <==>
            (TakenInterleaved(e.interleaved, s.sent[e.socket].req, steps[k].reply.resp) ==>
               steps[k].reply.from == c.prev.value.h))
  {
    hide Inv, RequestStep, UpdateStep, IsTraced, FromOneExchange, Extends;
    var m := steps[k];
    assert Next(run[k], run[k + 1], m);
    if i == k + 1 {
      RunKeepsInv(run, steps, k);
      AcceptIsExact(run[k], run[i], m.p, m.reply, m.cRx);
    } else {
      RunIsExact(run, steps, k, i - 1);
      RunKeepsInv(run, steps, i - 1);
      assert Next(run[i - 1], run[i], steps[i - 1]);
      NextExtends(run[i - 1], run[i], steps[i - 1]);
      StaysOk(run[i - 1], run[i]);
    }
  }

  lemma NextExtends(s: State, s': State, step: Step)
    requires Inv(s) && Next(s, s', step)
    ensures Extends(s, s')
  {
    match step
    case Send(p, socket, interleaved, cTx0, cTx) => SendExtends(s, s', p, socket, interleaved, cTx0, cTx);
    case Stray(socket, client, req) => StrayExtends(s, s', socket, client, req);
    case Handle(h, socket, rxt0, now, rxt, txt, resp) => HandleReplyOk(s, s', h, socket, rxt0, now, rxt, txt, resp);
    case Update(h, txt0, txt) => UpdateExtends(s, s', h, txt0, txt);
    case Accept(p, reply, cRx) => AcceptIsExact(s, s', p, reply, cRx);
    case GiveUp(p) =>
    case Forget(p) =>
  }

  /* ---- Runs with new times ---- */

  // The times given to the requests of a client.
  ghost function TimesOf(s: State, c: ClientId): set<Time64> {
    set h | h in s.handlings && s.handlings[h].key.client == c :: s.handlings[h].key.rx
  }

  // A request that is handled will get a time that no request of its client got.
  ghost predicate HasNewTime(s: State, step: Step) {
    step.Handle? && step.socket in s.sent ==>
      var c := s.sent[step.socket].client;
      GetsNewTime(s.store, c, TimesOf(s, c), step.rxt0)
  }

  // No two handlings have the same address and time.
  ghost predicate AreUnique(s: State) {
    forall g, h | g in s.handlings && h in s.handlings && s.handlings[g].key == s.handlings[h].key :: g == h
  }

  lemma HandledIsNew(s: State, s': State, h: nat, socket: Socket, rxt0: int, now: int, rxt: int, txt: int,
                     resp: Response, g: nat)
    requires StoreInv(s.store) && HandleStep(s, s', h, socket, rxt0, now, rxt, txt, resp)
    requires HasNewTime(s, Handle(h, socket, rxt0, now, rxt, txt, resp)) && g in s.handlings
    ensures s.handlings[g].key != Key(s.sent[socket].client, Time64FromTime(rxt))
  {
    var m := s.sent[socket];
    AssignsFirstFree(s.store, m.client, m.req, rxt0, now, s'.store, rxt, txt, resp);
  }

  lemma StepKeepsUnique(s: State, s': State, step: Step)
    requires Inv(s) && AreUnique(s) && Next(s, s', step) && HasNewTime(s, step)
    ensures AreUnique(s')
  {
    if step.Handle? {
      hide HasNewTime, Inv;
      forall g | g in s.handlings ensures s.handlings[g].key != s'.handlings[step.h].key {
        HandledIsNew(s, s', step.h, step.socket, step.rxt0, step.now, step.rxt, step.txt, step.resp, g);
      }
    } else {
      NextExtends(s, s', step);
    }
  }

  // In every state of every run in which all requests that are handled get new times, the
  // four stamps of every measurement taken so far, in interleaved mode or not, belong to one
  // and the same exchange.
  lemma {:induction false} RunIsSafe(run: seq<State>, steps: seq<Step>, i: nat)
    requires IsRun(run, steps) && i < |run|
    requires forall k :: 0 <= k < i ==> HasNewTime(run[k], steps[k])
    ensures AreUnique(run[i]) && Safe(run[i])
  {
    RunKeepsInv(run, steps, i);
    if i > 0 {
      RunIsSafe(run, steps, i - 1);
      RunKeepsInv(run, steps, i - 1);
      StepKeepsUnique(run[i - 1], run[i], steps[i - 1]);
    }
    UniqueIsSafe(run[i]);
  }

  lemma UniqueIsSafe(s: State)
    requires Inv(s) && AreUnique(s)
    ensures Safe(s)
  {
  }

  // A request that is handled came after all times given to its client, by less than an
  // era.
  ghost predicate IsLater(s: State, step: Step) {
    step.Handle? && step.socket in s.sent ==>
      forall h | h in s.handlings && s.handlings[h].key.client == s.sent[step.socket].client ::
        var t := s.handlings[h].rxt;
        t < step.rxt0 <= t + SECONDS_PER_ERA * NANOS_PER_SECOND - 1 - TSS_ITEM_CAP
  }

  lemma LaterHasNewTime(s: State, step: Step)
    requires Inv(s) && IsLater(s, step)
    ensures HasNewTime(s, step)
  {
    if step.Handle? && step.socket in s.sent {
      var c := s.sent[step.socket].client;
      var given := set h | h in s.handlings && s.handlings[h].key.client == c :: s.handlings[h].rxt;
      LaterIsNew(s.store, c, given, step.rxt0);
      var x := Time64FromTime(FirstFree(StoredTimes(s.store, c), step.rxt0));
      forall h | h in s.handlings && s.handlings[h].key.client == c ensures s.handlings[h].key.rx != x {
        assert HandlingOk(s, h);
        assert s.handlings[h].rxt in given;
      }
    }
  }

  // So a run is safe if the server's clock does not go back between the requests of a
  // client, and none of them comes an era late.
  lemma {:induction false} RunInOrderIsSafe(run: seq<State>, steps: seq<Step>, i: nat)
    requires IsRun(run, steps) && i < |run|
    requires forall k :: 0 <= k < i ==> IsLater(run[k], steps[k])
    ensures Safe(run[i])
  {
    forall k | 0 <= k < i ensures HasNewTime(run[k], steps[k]) {
      RunKeepsInv(run, steps, k);
      LaterHasNewTime(run[k], steps[k]);
    }
    RunIsSafe(run, steps, i);
  }

  /* ---- Why the client's two stamps must differ ---- */

  // Server and client agree on the mode of a response to an interleaved request exactly
  // if the request carries two different times.
  lemma ModesAgree(s: Store, a: ClientId, req: Request, rxt0: int, now: int, s': Store,
                   rxt: int, txt: int, resp: Response)
    requires RequestStep(s, a, req, rxt0, now, s', rxt, txt, resp)
    ensures (TakenInterleaved(true, req, resp) <==> ServedInterleaved(s, a, req)) <==> req.receive != req.transmit
    ensures Taken(true, req, resp)
  {
  }
}
