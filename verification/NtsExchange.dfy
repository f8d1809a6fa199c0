/** Exchanges between a client and a server with Network Time Security, over a network that
    loses packets: what becomes of the client's pool of cookies
    (core/client/client_ip.go, core/server/server_ip.go). */
module NtsExchange {
  import opened Bytes
  import opened CookiePool
  import Cookies
  import opened GoInt
  import opened KeyProvider
  import opened NtsCodec
  import opened NtsServer
  import opened Options

  /* ---- Good pools ---- */

  // The cookie b opens under the key that it names, to the session keys.
  ghost predicate IsCookieFor(b: Octets, key: Key, keys: Cookies.Cookie, a: Aead) {
    && |b| == COOKIE_LEN
    && var d := Cookies.DecodedFrom(Cookies.ENCRYPTED_COOKIE, b, 0, Cookies.NOTHING);
       d.Decoded? && d.cookie.number == key.id && Cookies.Opens(b, d.cookie, key.value, keys, a)
  }

  // The cookie b was made with the key that Current returned in r.
  ghost predicate IsGoodCookie(b: Octets, r: Run, keys: Cookies.Cookie, run: Run, a: Aead) {
    IsHistory(r) && r.Call? && Extends(run, r) && IsCookieFor(b, CurrentKey(r), keys, a)
  }

  // The cookies of the pool open to the session keys, each with the key returned in one of
  // the calls that made the provider what it is.
  ghost predicate IsGoodPool(cs: seq<Octets>, made: seq<Run>, keys: Cookies.Cookie, run: Run, a: Aead) {
    && |cs| == |made|
    && forall i :: 0 <= i < |cs| ==> IsGoodCookie(cs[i], made[i], keys, run, a)
  }

  // Whatever other clients make the provider do, the pool stays good.
  lemma CallsKeepPool(cs: seq<Octets>, made: seq<Run>, keys: Cookies.Cookie, run: Run, run': Run, a: Aead)
    requires Extends(run', run) && IsGoodPool(cs, made, keys, run, a)
    ensures IsGoodPool(cs, made, keys, run', a)
  {
    hide IsCookieFor, IsHistory;
    forall i | 0 <= i < |cs| ensures IsGoodCookie(cs[i], made[i], keys, run', a) {
      ExtendsMore(made[i], run, run');
    }
  }

  // Calls of Current that other clients cause, with the readings of the clock.
  datatype Other = Other(now: int, later: int, value: Octets)

  ghost predicate AreOthers(others: seq<Other>) {
    forall k :: 0 <= k < |others| ==> |others[k].value| == 32
  }

  // The last reading of the clock, after one at time from.
  ghost function OthersEnd(others: seq<Other>, from: int): int {
    if others == [] then from else others[|others| - 1].later
  }

  ghost predicate OthersInOrder(others: seq<Other>, from: int) {
    others != [] ==>
      var last := |others| - 1;
      && OthersInOrder(others[..last], from)
      && OthersEnd(others[..last], from) <= others[last].now <= others[last].later
  }

  // r and r' with r' later than r; in order up to time to, if all up to time from was.
  ghost predicate Continues(r': Run, r: Run, from: int, ordered: bool, to: int) {
    && IsHistory(r') && Extends(r', r)
    && (InOrder(r) && r.later <= from && ordered ==> InOrder(r') && r'.later <= to)
  }

  method CallForOthers(p: Provider, others: seq<Other>, ghost run: Run, ghost from: int) returns (ghost run': Run)
    requires IsHistory(run) && run.s == p.View() && AreOthers(others) && p.currentID <= MAX_INT64 - |others|
    modifies p
    ensures run'.s == p.View() && old(p.currentID) <= p.currentID <= old(p.currentID) + |others|
    ensures Continues(run', run, from, OthersInOrder(others, from), OthersEnd(others, from))
  {
    run' := run;
    var k := 0;
    assert others[..k] == [];
    while k < |others|
      invariant 0 <= k <= |others| && run'.s == p.View()
      invariant old(p.currentID) <= p.currentID <= old(p.currentID) + k
      invariant Continues(run', run, from, OthersInOrder(others[..k], from), OthersEnd(others[..k], from))
    {
      var o := others[k];
      var _ := p.Current(o.now, o.later, o.value);
      assert others[..k + 1][..k] == others[..k];
      run' := Call(run', p.View(), o.now, o.later);
      k := k + 1;
    }
    assert others[..k] == others;
  }

  /* ---- The server's side ---- */

  // The server admits the request of a good pool exactly if it still has the key of the
  // first cookie, and finds the session keys and the number of missing cookies.
  lemma AdmitsRequest(d: Data, made: seq<Run>, keys: Cookies.Cookie, run: Run, id: Octets, nonce: Octets, ntp: Octets,
                      now: int, a: Aead)
    requires IsRequest(d, id, nonce, ntp) && |d.cookies| >= 2 && IsIdeal(a) && IsHistory(run)
    requires IsGoodPool(d.cookies, made, keys, run, a) && keys.second == d.c2s
    ensures IsHistory(made[0])
    ensures AdmissionOf(run.s, Encoded(ntp, RequestPacket(d, id, nonce), a), now, a) ==
            if Lookup(run.s, CurrentKey(made[0]).id, now).Some? then Admitted(keys, id, Asked(|d.cookies|))
            else Rejected
  {
    assert IsGoodCookie(d.cookies[0], made[0], keys, run, a);
    var key := CurrentKey(made[0]);
    FoundIsSame(made[0], run, now);
    RequestArrives(d, id, nonce, ntp, a);
    var b, f := Encoded(ntp, RequestPacket(d, id, nonce), a), Received(ntp, RequestPacket(d, id, nonce), a);
    hide IsIdeal, Received, Encoded, Authenticated, RequestPacket, DecodedFrom, Cookies.DecodedFrom, Cookies.Decrypted;
    hide IsHistory, Extends, Lookup;
    assert AdmissionOf(run.s, b, now, a) == KeysOf(run.s, f, b, now, a);
    hide AdmissionOf, IsGoodPool;
  }

  lemma NewCookieIsGood(keys: Cookies.Cookie, key: Key, nonces: nat -> Octets, k: nat, a: Aead)
    requires Cookies.IsServerCookie(keys) && |nonces(k)| == Cookies.NONCE_LEN && Cookies.IsUint16(key.id) && IsIdeal(a)
    ensures IsCookieFor(NewCookie(keys, key, nonces, k, a), key, keys, a)
  {
    Cookies.EncryptedRoundTrip(keys, key.value, key.id, nonces(k), a);
    hide IsIdeal, Cookies.IsServerCookie, Cookies.DecodedFrom, Cookies.Decrypted, Cookies.Encoded, Cookies.Encrypted;
  }

  lemma NewCookiesAreGood(keys: Cookies.Cookie, key: Key, nonces: nat -> Octets, n: nat, a: Aead)
    requires Cookies.IsServerCookie(keys) && Cookies.IsUint16(key.id) && IsIdeal(a)
    requires forall k: nat :: |nonces(k)| == Cookies.NONCE_LEN
    ensures var cs := NewCookies(keys, key, nonces, n, a);
      && (forall k :: 0 <= k < n ==> IsCookieFor(cs[k], key, keys, a))
      && AllHave(cs, COOKIE_LEN) && AlikeAligned(cs)
  {
    var cs := NewCookies(keys, key, nonces, n, a);
    forall k | 0 <= k < n ensures IsCookieFor(cs[k], key, keys, a) && |cs[k]| == COOKIE_LEN {
      NewCookieIsGood(keys, key, nonces, k, a);
    }
  }

  // The answer to an admitted request fits, and the client finds all new cookies in it.
  lemma AnswerArrives(r: Answer, keys: Cookies.Cookie, id: Octets, n: nat, key: Key, v: Visit, a: Aead)
    requires 1 <= n <= 7 && r == AnswerWith(id, keys, NewCookies(keys, key, v.nonces, n, a), v.nonce, v.ntp, a)
    requires |id| == ID_LEN && |v.nonce| == NONCE_LEN && |v.ntp| == NTP_PACKET_LEN
    requires Cookies.IsServerCookie(keys) && Cookies.IsUint16(key.id) && IsIdeal(a)
    requires forall k: nat :: |v.nonces(k)| == Cookies.NONCE_LEN
    ensures r.Response?
    ensures var d := DecodedFrom(r.b, NTP_PACKET_LEN, NO_FIELDS);
      && d.Decoded? && d.fields.id == Some(id)
      && d.fields.auth.Some? && d.fields.auth.value.pos <= |r.b|
      && Authenticated(d.fields, r.b, keys.first, a) == Sealed.Cookies(NewCookies(keys, key, v.nonces, n, a))
  {
    hide IsIdeal, Authenticated, DecodedFrom, AnswerWith, AlikeAligned;
    NewCookiesAreGood(keys, key, v.nonces, n, a);
    CookiesArrive(NewCookies(keys, key, v.nonces, n, a), keys, id, v.nonce, v.ntp, a);
  }

  lemma CookiesArrive(cs: seq<Octets>, keys: Cookies.Cookie, id: Octets, nonce: Octets, ntp: Octets, a: Aead)
    requires IsResponse(cs, id, nonce, ntp) && |cs| <= 7 && AlikeAligned(cs) && IsIdeal(a)
    ensures var r := AnswerWith(id, keys, cs, nonce, ntp, a);
      && r.Response?
      && var d := DecodedFrom(r.b, NTP_PACKET_LEN, NO_FIELDS);
         && d.Decoded? && d.fields.id == Some(id)
         && d.fields.auth.Some? && d.fields.auth.value.pos <= |r.b|
         && Authenticated(d.fields, r.b, keys.first, a) == Sealed.Cookies(cs)
  {
    hide IsIdeal, Covered, Encoded, Authenticated, DecodedFrom, AlikeAligned, CookieFields, ResponseText;
    hide HeadersFit, ResponseTextSize;
    AlikeFit(cs);
    ResponseArrives(cs, keys.first, id, nonce, ntp, a);
    ResponseSize(cs, keys.first, id, nonce, ntp, a);
    NoneCovered(ntp, ResponseTo(id, keys, cs, nonce));
  }

  /* ---- One exchange ---- */

  // What an exchange depends on: what other clients do before it, the random ID and nonce and
  // the header of the request, whether each packet arrives, and what the answer of the server
  // depends on.
  datatype Trip = Trip(others: seq<Other>, id: Octets, nonce: Octets, ntp: Octets, requestArrives: bool, v: Visit,
                       responseArrives: bool)

  ghost predicate IsTrip(t: Trip) {
    && AreOthers(t.others)
    && |t.id| == ID_LEN && |t.nonce| == NONCE_LEN && |t.ntp| == NTP_PACKET_LEN
    && |t.v.value| == 32 && |t.v.nonce| == NONCE_LEN && |t.v.ntp| == NTP_PACKET_LEN
    && forall k: nat :: |t.v.nonces(k)| == Cookies.NONCE_LEN
  }

  // Both packets arrive, with valid headers.
  ghost predicate Arrives(t: Trip) {
    t.requestArrives && t.v.valid && t.responseArrives
  }

  ghost function End(t: Trip, from: int): int {
    if t.requestArrives then t.v.later else OthersEnd(t.others, from)
  }

  // The clock does not go backward from time from on.
  ghost predicate TripInOrder(t: Trip, from: int) {
    && OthersInOrder(t.others, from)
    && (t.requestArrives ==> OthersEnd(t.others, from) <= t.v.now <= t.v.current <= t.v.later)
  }

  datatype Outcome = Answered | Lost | Panicked

  // A client with data d has keys that the server knows, and a pool of good cookies.
  ghost predicate IsServed(d: Data, made: seq<Run>, keys: Cookies.Cookie, run: Run, a: Aead) {
    && Cookies.IsServerCookie(keys) && d.s2c == keys.first && d.c2s == keys.second
    && |d.cookies| <= NUM_STORED_COOKIES && IsGoodPool(d.cookies, made, keys, run, a) && IsHistory(run)
  }

  // Encodes the request for what FetchData gave.
  method MakeRequest(d: Data, t: Trip, a: Aead) returns (ok: bool, b: Octets)
    requires IsRequest(d, t.id, t.nonce, t.ntp) && IsIdeal(a)
    ensures ok <==> |d.cookies| >= 2
    ensures ok ==> b == Encoded(t.ntp, RequestPacket(d, t.id, t.nonce), a) && |b| > NTP_PACKET_LEN
  {
    FitsWithTwo(d, t.id, t.nonce, t.ntp, a);
    RequestSize(d, t.id, t.nonce, t.ntp, a);
    hide IsIdeal, Encoded, Covered, RequestPacket, Asked;
    var p := NewRequestPacket(d, t.id, t.nonce);
    var buf, n := new Byte[|t.ntp|](i requires 0 <= i < |t.ntp| => t.ntp[i]), 0;
    assert buf[..NTP_PACKET_LEN] == t.ntp;
    ok, buf, n := EncodePacket(buf, p, a);
    b := if ok then buf[..n] else [];
  }

  // Takes a response off the network.
  method TakeResponse(f: Fetcher, b: Octets, id: Octets, key: Octets, a: Aead) returns (ok: bool)
    modifies f
    ensures var d := DecodedFrom(b, NTP_PACKET_LEN, NO_FIELDS);
      d.Decoded? && d.fields.id == Some(id) && d.fields.auth.Some? && d.fields.auth.value.pos <= |b| ==>
        var r := Authenticated(d.fields, b, key, a);
        r.Cookies? ==> ok && f.data == old(f.data).(cookies := old(f.data).cookies + r.cookies)
    ensures !ok ==> f.data == old(f.data)
    ensures ok ==>
      var d := DecodedFrom(b, NTP_PACKET_LEN, NO_FIELDS);
      && d.Decoded? && d.fields.id == Some(id) && d.fields.auth.Some? && d.fields.auth.value.pos <= |b|
      && a.open(key, d.fields.auth.value.nonce, d.fields.auth.value.sealed, b[..d.fields.auth.value.pos]).Text?
  {
    var d := DecodePacket(b);
    DecodedHas(b, NTP_PACKET_LEN, NO_FIELDS);
    hide DecodedFrom, Authenticated;
    if !d.Decoded? {
      return false;
    }
    ok := f.ProcessResponse(d.fields, b, key, id, a);
  }

  // The server finds the key of the pool's first cookie.
  ghost predicate IsFound(made: seq<Run>, run: Run, now: int) {
    made != [] && IsHistory(made[0]) && Lookup(run.s, CurrentKey(made[0]).id, now).Some?
  }

  // The first cookie was made no more than 48 hours ago.
  ghost predicate IsInTime(made: seq<Run>, now: int) {
    made != [] && made[0].Call? && now <= made[0].now + 48 * HOUR
  }

  // It does for 48 hours after it made the cookie.
  lemma FoundFor48Hours(d: Data, made: seq<Run>, keys: Cookies.Cookie, run: Run, now: int, a: Aead)
    requires IsServed(d, made, keys, run, a) && d.cookies != []
    ensures InOrder(run) && run.later <= now && IsInTime(made, now) ==> IsFound(made, run, now)
  {
    assert IsGoodCookie(d.cookies[0], made[0], keys, run, a);
    if InOrder(run) && run.later <= now && IsInTime(made, now) {
      WasInOrder(made[0], run);
      KeyIsFound(made[0], CurrentKey(made[0]), run, now);
    }
  }

  lemma {:induction false} WasInOrder(r: Run, r': Run)
    requires InOrder(r') && Extends(r', r)
    ensures InOrder(r)
  {
    if r' != r {
      WasInOrder(r, r'.before);
    }
  }

  // The server's answer to the request of a served client.
  method Serve(p: Provider, b: Octets, t: Trip, ghost d: Data, ghost made: seq<Run>, ghost keys: Cookies.Cookie,
               ghost run: Run, a: Aead)
    returns (r: Answer, ghost run': Run)
    requires IsRequest(d, t.id, t.nonce, t.ntp) && |d.cookies| >= 2 && IsTrip(t) && IsIdeal(a)
    requires b == Encoded(t.ntp, RequestPacket(d, t.id, t.nonce), a) && |b| > NTP_PACKET_LEN
    requires IsServed(d, made, keys, run, a) && run.s == p.View() && 0 <= p.currentID < 0xffff
    modifies p
    ensures run'.s == p.View() && IsHistory(run') && old(p.currentID) <= p.currentID <= old(p.currentID) + 1
    ensures if t.v.valid && IsFound(made, run, t.v.now) then
        && run' == Call(run, p.View(), t.v.current, t.v.later)
        && Cookies.IsUint16(CurrentKey(run').id)
        && var cs := NewCookies(keys, CurrentKey(run'), t.v.nonces, Asked(|d.cookies|), a);
           r == AnswerWith(t.id, keys, cs, t.v.nonce, t.v.ntp, a)
      else r == Silence && run' == run
  {
    AdmitsRequest(d, made, keys, run, t.id, t.nonce, t.ntp, t.v.now, a);
    hide IsIdeal, AdmissionOf, AnswerWith, IsGoodPool, IsRequest, Encoded, RequestPacket, Lookup;
    r := AnswerTo(p, b, t.v, a);
    run' := run;
    if t.v.valid && IsFound(made, run, t.v.now) {
      run' := Call(run, p.View(), t.v.current, t.v.later);
      CurrentHasID(run');
    }
  }

  // One exchange of a client: FetchData, the request, the server's answer, the response.
  method Exchange(f: Fetcher, p: Provider, t: Trip, a: Aead, ghost made: seq<Run>, ghost keys: Cookies.Cookie,
                  ghost run: Run)
    returns (o: Outcome, ghost run': Run, ghost made': seq<Run>)
    requires IsServed(f.data, made, keys, run, a) && f.data.cookies != [] && run.s == p.View()
    requires 0 <= p.currentID < 0xffff && IsTrip(t) && IsIdeal(a)
    modifies f, p
    ensures IsServed(f.data, made', keys, run', a) && run'.s == p.View()
    ensures old(p.currentID) <= p.currentID <= old(p.currentID) + 1
    ensures run' == run || (t.requestArrives && run' == Call(run, p.View(), t.v.current, t.v.later))
    ensures o.Panicked? <==> |old(f.data).cookies| == 1
    ensures !o.Panicked? ==> (o.Answered? <==> Arrives(t) && IsFound(made, run, t.v.now))
    ensures o.Answered? ==>
      && run' == Call(run, p.View(), t.v.current, t.v.later)
      && made' == made[1..] + seq(Asked(|old(f.data).cookies|), _ => run')
      && f.data.cookies == old(f.data).cookies[1..]
                           + NewCookies(keys, CurrentKey(run'), t.v.nonces, Asked(|old(f.data).cookies|), a)
      && |f.data.cookies| == NUM_STORED_COOKIES
    ensures !o.Answered? ==> f.data.cookies == old(f.data).cookies[1..] && made' == made[1..]
  {
    hide IsIdeal, IsRequest, Encoded, IsGoodPool, Lookup, AnswerWith, IsHistory, Extends;
    hide DecodedFrom, Authenticated, NewCookies, IsFound;
    ghost var d0 := f.data;
    MakesRequest(d0, made, keys, run, a, t);
    RestIsGood(d0.cookies, made, keys, run, a);
    run', made' := run, made[1..];
    var data := f.FetchData(Failed(f.data));
    var d := data.value;
    var ok, b := MakeRequest(d, t, a);
    if !ok {
      return Panicked, run', made';
    }
    if !t.requestArrives {
      return Lost, run', made';
    }
    var r;
    r, run' := Serve(p, b, t, d, made, keys, run, a);
    OneMoreCall(run, run');
    CallsKeepPool(d0.cookies[1..], made[1..], keys, run, run', a);
    ghost var n := Asked(|d.cookies|);
    if t.v.valid && IsFound(made, run, t.v.now) {
      AnswerArrives(r, keys, t.id, n, CurrentKey(run'), t.v, a);
    }
    if !r.Response? {
      return Lost, run', made';
    }
    if !t.responseArrives {
      return Lost, run', made';
    }
    ok := TakeResponse(f, r.b, t.id, d.s2c, a);
    PoolGrows(d0.cookies[1..], made[1..], keys, run', t.v.nonces, n, a);
    o, made' := Answered, made[1..] + seq(n, _ => run');
  }

  lemma MakesRequest(d: Data, made: seq<Run>, keys: Cookies.Cookie, run: Run, a: Aead, t: Trip)
    requires IsServed(d, made, keys, run, a) && d.cookies != [] && IsTrip(t)
    ensures IsRequest(d, t.id, t.nonce, t.ntp)
  {
    assert forall i :: 0 <= i < |d.cookies| ==> IsGoodCookie(d.cookies[i], made[i], keys, run, a);
  }

  lemma OneMoreCall(run: Run, run': Run)
    ensures run' == run || (run'.Call? && run'.before == run) ==> Extends(run', run)
  {
  }

  lemma RestIsGood(cs: seq<Octets>, made: seq<Run>, keys: Cookies.Cookie, run: Run, a: Aead)
    requires IsGoodPool(cs, made, keys, run, a) && cs != []
    ensures made != [] && IsGoodPool(cs[1..], made[1..], keys, run, a)
  {
    hide IsGoodCookie;
  }

  lemma PoolGrows(cs: seq<Octets>, made: seq<Run>, keys: Cookies.Cookie, run: Run, nonces: nat -> Octets, n: nat,
                  a: Aead)
    requires IsGoodPool(cs, made, keys, run, a) && IsHistory(run) && run.Call?
    requires Cookies.IsServerCookie(keys) && Cookies.IsUint16(CurrentKey(run).id) && IsIdeal(a)
    requires forall k: nat :: |nonces(k)| == Cookies.NONCE_LEN
    ensures IsGoodPool(cs + NewCookies(keys, CurrentKey(run), nonces, n, a), made + seq(n, _ => run), keys, run, a)
  {
    NewCookiesAreGood(keys, CurrentKey(run), nonces, n, a);
    hide IsCookieFor, NewCookies, IsIdeal;
  }

  /* ---- Many exchanges ---- */

  // How many of the last exchanges were lost in a row.
  ghost function LostInARow(os: seq<Outcome>): (n: nat)
    ensures n <= |os|
  {
    if os == [] || !os[|os| - 1].Lost? then 0 else 1 + LostInARow(os[..|os| - 1])
  }

  // The n exchanges before exchange k were all lost.
  ghost predicate AreLost(os: seq<Outcome>, n: nat, k: nat) {
    n <= k <= |os| && forall j :: k - n <= j < k ==> os[j].Lost?
  }

  lemma {:induction false} LostInARowIs(os: seq<Outcome>, n: nat)
    ensures n <= LostInARow(os) <==> AreLost(os, n, |os|)
  {
    if n > 0 && os != [] && os[|os| - 1].Lost? {
      var front := os[..|os| - 1];
      LostInARowIs(front, n - 1);
      assert AreLost(front, n - 1, |front|) <==> AreLost(os, n, |os|);
    }
  }

  // The calls of Current in the exchanges from k on.
  ghost function CallsFrom(ts: seq<Trip>, k: nat): nat
    decreases |ts| - k
  {
    if k < |ts| then |ts[k].others| + 1 + CallsFrom(ts, k + 1) else 0
  }

  // The last reading of the clock before exchange k.
  ghost function Clock(ts: seq<Trip>, k: nat, from: int): int
    requires k <= |ts|
  {
    if k == 0 then from else End(ts[k - 1], Clock(ts, k - 1, from))
  }

  ghost predicate AreInOrder(ts: seq<Trip>, from: int) {
    forall k :: 0 <= k < |ts| ==> TripInOrder(ts[k], Clock(ts, k, from))
  }

  // A request arrives no more than 48 hours after the answers in the eight exchanges before
  // it, and neither do the first eight after the cookies were made that they use.
  ghost predicate ArePrompt(ts: seq<Trip>, made: seq<Run>) {
    && (forall k :: 0 <= k < |ts| && k < |made| && ts[k].requestArrives ==>
          made[k].Call? && ts[k].v.now <= made[k].now + 48 * HOUR)
    && (forall j, k :: 0 <= j < k < |ts| && k <= j + 8 && Arrives(ts[j]) && ts[k].requestArrives ==>
          ts[k].v.now <= ts[j].v.current + 48 * HOUR)
  }

  // Where a cookie comes from that is used in exchange k, if the pool is full in the
  // beginning: from the beginning, or one of the eight exchanges before.
  ghost predicate IsOrigin(r: Run, made: seq<Run>, ts: seq<Trip>, k: nat) {
    if k < |made| then r == made[k] else exists j :: WasMadeIn(r, ts, j, k)
  }

  ghost predicate WasMadeIn(r: Run, ts: seq<Trip>, j: int, k: int) {
    r.Call? && 0 <= j < |ts| && j < k <= j + 8 && Arrives(ts[j]) && r.now == ts[j].v.current
  }

  ghost predicate AreOrigins(rs: seq<Run>, made: seq<Run>, ts: seq<Trip>, k: nat) {
    forall i :: 0 <= i < |rs| ==> IsOrigin(rs[i], made, ts, k + i)
  }

  // The cookies of the pool after exchange k: the rest, and new ones from this exchange.
  lemma OriginsAreKept(rs: seq<Run>, r: Run, n: nat, made: seq<Run>, ts: seq<Trip>, k: nat)
    requires AreOrigins(rs, made, ts, k) && k < |ts| && |made| == 8 && 8 - k <= |rs| && rs != []
    requires n > 0 ==> |rs| + n == 9 && r.Call? && Arrives(ts[k]) && r.now == ts[k].v.current
    ensures AreOrigins(rs[1..] + seq(n, _ => r), made, ts, k + 1)
    ensures AreOrigins(rs[1..], made, ts, k + 1)
  {
    hide IsOrigin;
    var rs' := rs[1..] + seq(n, _ => r);
    forall i | 0 <= i < |rs'| ensures IsOrigin(rs'[i], made, ts, k + 1 + i) {
      if i < |rs| - 1 {
        assert IsOrigin(rs[i + 1], made, ts, k + (i + 1));
      } else {
        NewIsOrigin(r, made, ts, k, i);
      }
    }
    assert forall i :: 0 <= i < |rs| - 1 ==> rs'[i] == rs[1..][i];
  }

  lemma NewIsOrigin(r: Run, made: seq<Run>, ts: seq<Trip>, k: nat, i: nat)
    requires k < |ts| && |made| == 8 && 7 - k <= i < 8 && r.Call? && Arrives(ts[k]) && r.now == ts[k].v.current
    ensures IsOrigin(r, made, ts, k + 1 + i)
  {
    assert WasMadeIn(r, ts, k, k + 1 + i);
  }

  lemma UsedInTime(rs: seq<Run>, made: seq<Run>, ts: seq<Trip>, k: nat)
    requires AreOrigins(rs, made, ts, k) && rs != [] && k < |ts| && ArePrompt(ts, made)
    requires ts[k].requestArrives
    ensures IsInTime(rs, ts[k].v.now)
  {
    assert IsOrigin(rs[0], made, ts, k + 0);
  }

  // A key is found in exchange k, after the calls of others, if all is in order and prompt.
  lemma NextIsFound(d: Data, rs: seq<Run>, keys: Cookies.Cookie, run: Run, met: Run, a: Aead, made: seq<Run>,
                    ts: seq<Trip>, k: nat, from: int)
    requires k < |ts| && IsServed(d, rs, keys, run, a) && d.cookies != [] && AreOrigins(rs, made, ts, k) && rs != []
    requires var t, c := ts[k], Clock(ts, k, from);
      Continues(met, run, c, OthersInOrder(t.others, c), OthersEnd(t.others, c))
    ensures IsServed(d, rs, keys, met, a)
    ensures InOrder(run) && run.later <= Clock(ts, k, from) && AreInOrder(ts, from) && ArePrompt(ts, made) ==>
              && InOrder(met) && met.later <= OthersEnd(ts[k].others, Clock(ts, k, from))
              && (ts[k].requestArrives ==> IsFound(rs, met, ts[k].v.now))
  {
    CallsKeepPool(d.cookies, rs, keys, run, met, a);
    hide IsGoodPool, InOrder, IsHistory, Extends, IsFound, Clock, OthersInOrder, OthersEnd, IsInTime, AreOrigins;
    FoundFor48Hours(d, rs, keys, met, ts[k].v.now, a);
    hide IsServed;
    if AreInOrder(ts, from) && ArePrompt(ts, made) {
      assert TripInOrder(ts[k], Clock(ts, k, from));
      if ts[k].requestArrives {
        UsedInTime(rs, made, ts, k);
      }
    }
  }

  lemma StaysInOrder(ts: seq<Trip>, k: nat, from: int, met: Run, run: Run)
    requires k < |ts| && AreInOrder(ts, from) && InOrder(met)
    requires met.later <= OthersEnd(ts[k].others, Clock(ts, k, from))
    requires run == met || (ts[k].requestArrives && run == Call(met, run.s, ts[k].v.current, ts[k].v.later))
    ensures InOrder(run) && run.later <= Clock(ts, k + 1, from)
  {
    var c := Clock(ts, k, from);
    assert TripInOrder(ts[k], c);
    assert Clock(ts, k + 1, from) == End(ts[k], c);
    hide OthersInOrder, OthersEnd, Clock;
  }

  lemma CanCall(d: Data, rs: seq<Run>, keys: Cookies.Cookie, run: Run, a: Aead, t: Trip)
    requires IsServed(d, rs, keys, run, a) && IsTrip(t)
    ensures IsHistory(run) && AreOthers(t.others) && |rs| == |d.cookies|
  {
  }

  lemma OneCallLess(ts: seq<Trip>, k: nat)
    requires k < |ts|
    ensures CallsFrom(ts, k) == |ts[k].others| + 1 + CallsFrom(ts, k + 1)
  {
  }

  ghost predicate IsInTimeUpTo(made: seq<Run>, ts: seq<Trip>, first: Run, run: Run, k: nat) {
    k <= |ts| && InOrder(first) && AreInOrder(ts, first.later) && ArePrompt(ts, made) ==>
      InOrder(run) && run.later <= Clock(ts, k, first.later)
  }

  // Where a client with data d is before exchange k, if it was first served with the cookies
  // from made, by the provider after run first.
  ghost predicate IsReached(d: Data, rs: seq<Run>, keys: Cookies.Cookie, run: Run, a: Aead,
                            made: seq<Run>, ts: seq<Trip>, first: Run, k: nat)
  {
    && IsServed(d, rs, keys, run, a) && |made| == NUM_STORED_COOKIES
    && AreOrigins(rs, made, ts, k) && IsInTimeUpTo(made, ts, first, run, k)
  }

  lemma AtFirst(d: Data, made: seq<Run>, keys: Cookies.Cookie, run: Run, a: Aead, ts: seq<Trip>)
    requires IsServed(d, made, keys, run, a) && |d.cookies| == NUM_STORED_COOKIES
    ensures IsReached(d, made, keys, run, a, made, ts, run, 0)
    ensures LostInARow([]) == 0 && PanicsAfterSeven([]) && ArrivalsAreAnswered([], ts)
  {
  }

  // Exchange k, after the calls that others make before it.
  method NextExchange(f: Fetcher, p: Provider, ts: seq<Trip>, k: nat, a: Aead, ghost made: seq<Run>,
                      ghost keys: Cookies.Cookie, ghost first: Run, ghost rs: seq<Run>, ghost run: Run)
    returns (o: Outcome, ghost run': Run, ghost rs': seq<Run>)
    requires k < |ts| && IsReached(f.data, rs, keys, run, a, made, ts, first, k) && run.s == p.View()
    requires f.data.cookies != [] && |f.data.cookies| >= NUM_STORED_COOKIES - k
    requires 0 <= p.currentID < 0xffff - |ts[k].others| && IsTrip(ts[k]) && IsIdeal(a)
    modifies f, p
    ensures IsReached(f.data, rs', keys, run', a, made, ts, first, k + 1) && run'.s == p.View()
    ensures old(p.currentID) <= p.currentID <= old(p.currentID) + |ts[k].others| + 1
    ensures o.Panicked? <==> |old(f.data).cookies| == 1
    ensures o.Answered? ==> |f.data.cookies| == NUM_STORED_COOKIES
    ensures !o.Answered? ==> |f.data.cookies| == |old(f.data).cookies| - 1
    ensures InOrder(first) && AreInOrder(ts, first.later) && ArePrompt(ts, made) && !o.Panicked? ==>
              (o.Answered? <==> Arrives(ts[k]))
  {
    var t := ts[k];
    CanCall(f.data, rs, keys, run, a, t);
    hide IsServed, IsTrip, IsIdeal, AreOrigins, ArePrompt, AreInOrder, TripInOrder, InOrder;
    hide IsFound, Continues, IsHistory, Clock;
    ghost var met := CallForOthers(p, t.others, run, Clock(ts, k, first.later));
    NextIsFound(f.data, rs, keys, run, met, a, made, ts, k, first.later);
    o, run', rs' := Exchange(f, p, t, a, rs, keys, met);
    if InOrder(first) && AreInOrder(ts, first.later) && ArePrompt(ts, made) {
      StaysInOrder(ts, k, first.later, met, run');
    }
    OriginsAreKept(rs, run', if o.Answered? then Asked(|rs|) else 0, made, ts, k);
  }

  // An exchange panics exactly if the seven before it were all lost, and is then the last.
  ghost predicate PanicsAfterSeven(os: seq<Outcome>) {
    && (forall k :: 0 <= k < |os| ==> (os[k].Panicked? <==> AreLost(os, 7, k)))
    && (forall k :: 0 <= k < |os| - 1 ==> !os[k].Panicked?)
  }

  ghost predicate ArrivalsAreAnswered(os: seq<Outcome>, ts: seq<Trip>) {
    |os| <= |ts| && forall k :: 0 <= k < |os| && !os[k].Panicked? ==> (os[k].Answered? <==> Arrives(ts[k]))
  }

  lemma OneMoreAnswered(os: seq<Outcome>, o: Outcome, ts: seq<Trip>)
    requires |os| < |ts|
    ensures ArrivalsAreAnswered(os, ts) && (!o.Panicked? ==> (o.Answered? <==> Arrives(ts[|os|]))) ==>
              ArrivalsAreAnswered(os + [o], ts)
  {
    hide Arrives;
  }

  // Any sequence of exchanges from a full pool, up to a panic: an exchange panics exactly if
  // the seven before it were all lost. An exchange that is answered makes the pool full. If
  // the clock does not go backward and the exchanges follow each other promptly, exactly
  // those are answered that arrive.
  method Exchanges(f: Fetcher, p: Provider, ts: seq<Trip>, a: Aead, ghost made: seq<Run>, ghost keys: Cookies.Cookie,
                   ghost run: Run)
    returns (os: seq<Outcome>)
    requires IsServed(f.data, made, keys, run, a) && |f.data.cookies| == NUM_STORED_COOKIES && run.s == p.View()
    requires 0 <= p.currentID <= 0xffff - CallsFrom(ts, 0) && IsIdeal(a)
    requires forall k :: 0 <= k < |ts| ==> IsTrip(ts[k])
    modifies f, p
    ensures |os| <= |ts| && (|os| < |ts| ==> os != [] && os[|os| - 1].Panicked?)
    ensures PanicsAfterSeven(os)
    ensures os == [] || !os[|os| - 1].Panicked? ==> |f.data.cookies| == NUM_STORED_COOKIES - LostInARow(os)
    ensures InOrder(run) && AreInOrder(ts, run.later) && ArePrompt(ts, made) ==> ArrivalsAreAnswered(os, ts)
  {
    hide IsReached, IsServed, IsTrip, IsIdeal, AreLost, LostInARow, ArePrompt, AreInOrder, InOrder, CallsFrom, Arrives;
    hide ArrivalsAreAnswered, PanicsAfterSeven;
    os := [];
    ghost var rs, run' := made, run;
    ghost var inTime := InOrder(run) && AreInOrder(ts, run.later) && ArePrompt(ts, made);
    AtFirst(f.data, made, keys, run, a, ts);
    while |os| < |ts|
      invariant |os| <= |ts| && f.data.cookies != []
      invariant 0 <= p.currentID <= 0xffff - CallsFrom(ts, |os|)
      invariant IsReached(f.data, rs, keys, run', a, made, ts, run, |os|) && run'.s == p.View()
      invariant |f.data.cookies| == NUM_STORED_COOKIES - LostInARow(os)
      invariant PanicsAfterSeven(os) && (os != [] ==> !os[|os| - 1].Panicked?)
      invariant inTime ==> ArrivalsAreAnswered(os, ts)
    {
      OneCallLess(ts, |os|);
      var o;
      o, run', rs := NextExchange(f, p, ts, |os|, a, made, keys, run, rs, run');
      OneMoreOutcome(os, o);
      OneMoreAnswered(os, o, ts);
      os := os + [o];
      if o.Panicked? {
        break;
      }
    }
  }

  lemma OneMoreOutcome(os: seq<Outcome>, o: Outcome)
    requires PanicsAfterSeven(os) && (os != [] ==> !os[|os| - 1].Panicked?)
    requires o.Panicked? <==> LostInARow(os) == 7
    requires LostInARow(os) <= 7
    ensures LostInARow(os + [o]) == if o.Lost? then LostInARow(os) + 1 else 0
    ensures PanicsAfterSeven(os + [o])
  {
    hide AreLost, LostInARow;
    OneMoreLost(os, o);
    LostInARowIs(os, 7);
    forall k | 0 <= k <= |os| ensures AreLost(os + [o], 7, k) <==> AreLost(os, 7, k) {
      LostBefore(os, o, 7, k);
    }
  }

  lemma OneMoreLost(os: seq<Outcome>, o: Outcome)
    ensures LostInARow(os + [o]) == if o.Lost? then LostInARow(os) + 1 else 0
  {
    assert (os + [o])[..|os|] == os;
  }

  lemma LostBefore(os: seq<Outcome>, o: Outcome, n: nat, k: nat)
    requires k <= |os|
    ensures AreLost(os + [o], n, k) <==> AreLost(os, n, k)
  {
    assert forall j :: 0 <= j < |os| ==> (os + [o])[j] == os[j];
  }
}
