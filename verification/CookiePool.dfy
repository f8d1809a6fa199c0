/** The cookies of a client: fetched for a request, and refilled by its response
    (net/ntske/fetcher.go, net/nts/nts.go, core/server/server_ip.go). */
module CookiePool {
  import opened Bytes
  import opened Options
  import opened NtsCodec

  const NUM_STORED_COOKIES := 8
  const ID_LEN := 32
  const COOKIE_LEN := 124

  // What a key exchange gives.
  datatype Data = Data(cookies: seq<Octets>, c2s: Octets, s2c: Octets)

  // A key exchange that fails may leave some of what it read.
  datatype KeyExchange = Exchanged(data: Data) | Failed(left: Data)

  class Fetcher {
    var data: Data

    constructor ()
      ensures data == Data([], [], [])
    {
      data := Data([], [], []);
    }

    // A key exchange is made if there are no cookies; a successful one gives cookies. After
    // a failed one, what it left is what the next call finds.
    method FetchData(exchange: KeyExchange) returns (r: Option<Data>)
      requires exchange.Exchanged? ==> exchange.data.cookies != []
      modifies this
      ensures r == (if old(data).cookies != [] then Some(old(data))
                    else if exchange.Exchanged? then Some(exchange.data) else None)
      ensures r.Some? ==> r.value.cookies != [] && data == r.value.(cookies := r.value.cookies[1..])
      ensures r.None? ==> data == exchange.left
    {
      if data.cookies == [] {
        if exchange.Failed? {
          data := exchange.left;
          return None;
        }
        data := exchange.data;
      }
      r := Some(data);
      data := data.(cookies := data.cookies[1..]);
    }

    method StoreCookie(cookie: Octets)
      modifies this
      ensures data == old(data).(cookies := old(data).cookies + [cookie])
    {
      data := data.(cookies := data.cookies + [cookie]);
    }

    // The response is to the request with ID id, and its sealed cookies are stored if it is
    // authentic.
    method ProcessResponse(f: Fields, b: Octets, key: Octets, id: Octets, a: Aead) returns (ok: bool)
      requires f.auth.Some? && f.auth.value.pos <= |b|
      modifies this
      ensures ok <==> f.id == Some(id) && Authenticated(f, b, key, a).Cookies?
      ensures ok ==> data == old(data).(cookies := old(data).cookies + Authenticated(f, b, key, a).cookies)
      ensures !ok ==> data == old(data)
      ensures var o := a.open(key, f.auth.value.nonce, f.auth.value.sealed, b[..f.auth.value.pos]);
        && (o.Forged? ==> !ok)
        && (o.Text? ==> Authenticated(f, b, key, a) == CookiesFrom(o.text, 0, f.cookies))
    {
      if f.id != Some(id) {
        return false;
      }
      var r := Authenticate(f, b, key, a);
      if !r.Cookies? {
        return false;
      }
      var k := 0;
      while k < |r.cookies|
        invariant 0 <= k <= |r.cookies|
        invariant data == old(data).(cookies := old(data).cookies + r.cookies[..k])
      {
        StoreCookie(r.cookies[k]);
        k := k + 1;
      }
      assert r.cookies[..k] == r.cookies;
      ok := true;
    }
  }

  ghost function Placeholders(n: int, size: nat): seq<Octets> {
    seq(if n < 0 then 0 else n, _ => Zeros(size))
  }

  ghost function RequestPacket(d: Data, id: Octets, nonce: Octets): Packet
    requires d.cookies != []
  {
    var c := d.cookies[0];
    Packet(id, [c], Placeholders(NUM_STORED_COOKIES - |d.cookies|, |c|), d.c2s, nonce, [])
  }

  // One cookie, and placeholders for those missing.
  method NewRequestPacket(d: Data, id: Octets, nonce: Octets) returns (p: Packet)
    requires d.cookies != []
    ensures p == RequestPacket(d, id, nonce)
    ensures p.id == id && p.cookies == [d.cookies[0]] && p.key == d.c2s && p.nonce == nonce && p.text == []
    ensures |p.placeholders| == if |d.cookies| < NUM_STORED_COOKIES then NUM_STORED_COOKIES - |d.cookies| else 0
    ensures forall i :: 0 <= i < |p.placeholders| ==> p.placeholders[i] == Zeros(|d.cookies[0]|)
  {
    var c, ps := d.cookies[0], [];
    var i := |d.cookies|;
    while i < NUM_STORED_COOKIES
      invariant ps == Placeholders(i - |d.cookies|, |c|)
      invariant |d.cookies| <= i && (i <= NUM_STORED_COOKIES || i == |d.cookies|)
    {
      ps := ps + [Zeros(|c|)];
      i := i + 1;
    }
    p := Packet(id, [c], ps, d.c2s, nonce, []);
  }

  // All of the same length, a multiple of four.
  ghost predicate AlikeAligned(cs: seq<Octets>) {
    Aligned(cs) && forall i, j :: 0 <= i < j < |cs| ==> |cs[i]| == |cs[j]|
  }

  ghost predicate AllHave(cs: seq<Octets>, n: nat) {
    forall i :: 0 <= i < |cs| ==> |cs[i]| == n
  }

  lemma OneMore(k: int, z: int)
    ensures (k + 1) * z == z + k * z
  {
  }

  lemma {:induction false} AllSize(cs: seq<Octets>, n: nat)
    requires AllHave(cs, n)
    ensures |CookieFields(cs)| == |cs| * (4 + n + Padding(n))
  {
    if cs != [] {
      var z := 4 + n + Padding(n);
      AllSize(cs[1..], n);
      assert |CookieFields(cs)| == z + |CookieFields(cs[1..])|;
      OneMore(|cs| - 1, z);
    }
  }

  lemma AlignedSize(cs: seq<Octets>, n: nat)
    requires AllHave(cs, n) && n % 4 == 0
    ensures |CookieFields(cs)| == |cs| * (4 + n)
  {
    hide CookieFields, AllHave;
    AllSize(cs, n);
    assert Padding(n) == 0;
  }

  // The size of the fields if all are like the first one, without padding.
  function ResponseTextSize(cs: seq<Octets>): nat
    requires cs != []
  {
    |cs| * (4 + |cs[0]|)
  }

  // What is sealed: the fields as far as they fit into that size, and zeros.
  ghost function ResponseText(cs: seq<Octets>): (r: Octets)
    requires cs != []
    ensures |r| == ResponseTextSize(cs)
  {
    var t := Clip(CookieFields(cs), ResponseTextSize(cs));
    t + Zeros(ResponseTextSize(cs) - |t|)
  }

  // Panics, that is ok = false, if there is no cookie or no room for a header.
  method NewResponsePacket(cs: seq<Octets>, key: Octets, id: Octets, nonce: Octets) returns (ok: bool, p: Packet)
    ensures ok <==> cs != [] && HeadersFit(cs, 0, ResponseTextSize(cs))
    ensures ok ==> p == Packet(id, [], [], key, nonce, ResponseText(cs))
  {
    hide CookieFields, HeadersFit, ResponseTextSize;
    p := Packet(id, [], [], key, nonce, []);
    if cs == [] {
      return false, p;
    }
    var size := ResponseTextSize(cs);
    var buf := new Byte[size](_ => 0);
    var pos;
    ghost var zeros := buf[..];
    assert Written(buf[..], size, 0, []);
    assert [] + CookieFields(cs) == CookieFields(cs);
    ok, pos := PutCookies(buf, size, 0, cs, []);
    if ok {
      assert buf[..] == buf[..pos] + buf[pos..];
      assert zeros[pos..] == Zeros(size - pos);
      p := p.(text := buf[..]);
    }
  }

  lemma AlikeSize(cs: seq<Octets>)
    requires cs != [] && AlikeAligned(cs)
    ensures |CookieFields(cs)| == ResponseTextSize(cs)
  {
    hide CookieFields;
    AlignedSize(cs, |cs[0]|);
  }

  // Cookies of one length, a multiple of four, fit.
  lemma AlikeFit(cs: seq<Octets>)
    requires cs != [] && AlikeAligned(cs)
    ensures HeadersFit(cs, 0, ResponseTextSize(cs)) && ResponseText(cs) == CookieFields(cs)
  {
    hide CookieFields, AlikeAligned, ResponseTextSize;
    AlikeSize(cs);
    forall k | 0 <= k < |cs| ensures |CookieFields(cs[..k])| + 4 <= |CookieFields(cs)| {
      CookieFieldsLonger(cs, k);
    }
  }

  /* ---- One exchange ---- */

  // A request with cookies of 124 bytes.
  ghost predicate IsRequest(d: Data, id: Octets, nonce: Octets, ntp: Octets) {
    && 1 <= |d.cookies| <= NUM_STORED_COOKIES && AllHave(d.cookies, COOKIE_LEN)
    && |id| == ID_LEN && |nonce| == NONCE_LEN && |ntp| == NTP_PACKET_LEN
  }

  ghost predicate IsResponse(cs: seq<Octets>, id: Octets, nonce: Octets, ntp: Octets) {
    && cs != [] && AllHave(cs, COOKIE_LEN)
    && |id| == ID_LEN && |nonce| == NONCE_LEN && |ntp| == NTP_PACKET_LEN
  }

  lemma AuthSize(nonce: Octets, sealed: Octets)
    requires |nonce| == NONCE_LEN && |sealed| % 4 == 0
    ensures |AuthValue(nonce, sealed)| == 4 + NONCE_LEN + |sealed|
  {
  }

  // The number of cookies and placeholders in a request from a pool of l cookies.
  function Asked(l: nat): nat {
    if l < NUM_STORED_COOKIES then NUM_STORED_COOKIES + 1 - l else 1
  }

  // Each of them takes as much as the first cookie does, padded.
  lemma RequestSize(d: Data, id: Octets, nonce: Octets, ntp: Octets, a: Aead)
    requires d.cookies != [] && |nonce| == NONCE_LEN && IsIdeal(a)
    ensures var p := RequestPacket(d, id, nonce);
      var n := |ntp| + 4 + |Padded(id)| + Asked(|d.cookies|) * (4 + |Padded(d.cookies[0])|);
      && |Covered(ntp, p)| == n
      && |Encoded(ntp, p, a)| == n + 40
  {
    hide Covered, Encoded, RequestPacket, Padded, IsIdeal, Asked;
    CoveredSize(d, id, nonce, ntp);
    EncodedSize(ntp, RequestPacket(d, id, nonce), a);
  }

  lemma CoveredSize(d: Data, id: Octets, nonce: Octets, ntp: Octets)
    requires d.cookies != []
    ensures var p := RequestPacket(d, id, nonce);
      && p.nonce == nonce && p.text == []
      && |Covered(ntp, p)| == |ntp| + 4 + |Padded(id)| + Asked(|d.cookies|) * (4 + |Padded(d.cookies[0])|)
  {
    var p, c := RequestPacket(d, id, nonce), d.cookies[0];
    var z := 4 + |c| + Padding(|c|);
    AllSize(p.cookies, |c|);
    AllSize(p.placeholders, |c|);
    OneMore(|p.placeholders|, z);
    assert 4 + |Padded(c)| == z && Asked(|d.cookies|) == |p.placeholders| + 1;
    assert |CookieFields(p.cookies)| == 1 * z == z;
    hide CookieFields, Padded, Padding, Asked;
  }

  lemma NoneCovered(ntp: Octets, p: Packet)
    requires p.cookies == [] && p.placeholders == [] && |p.id| == ID_LEN
    ensures |Covered(ntp, p)| == |ntp| + 36
  {
    assert Padded(p.id) == p.id && CookieFields([]) == [];
  }

  lemma ResponseSize(cs: seq<Octets>, key: Octets, id: Octets, nonce: Octets, ntp: Octets, a: Aead)
    requires IsResponse(cs, id, nonce, ntp) && IsIdeal(a)
    ensures |Encoded(ntp, Packet(id, [], [], key, nonce, CookieFields(cs)), a)| == 124 + 128 * |cs|
  {
    var p := Packet(id, [], [], key, nonce, CookieFields(cs));
    hide *;
    AlikeResponse(cs, id, nonce, ntp);
    NoneCovered(ntp, p);
    EncodedSize(ntp, p, a);
  }

  lemma AlikeResponse(cs: seq<Octets>, id: Octets, nonce: Octets, ntp: Octets)
    requires IsResponse(cs, id, nonce, ntp)
    ensures |CookieFields(cs)| == 128 * |cs| && |id| == ID_LEN && |nonce| == NONCE_LEN && |ntp| == 48
  {
    hide CookieFields;
    AlignedSize(cs, COOKIE_LEN);
  }

  lemma EncodedSize(ntp: Octets, p: Packet, a: Aead)
    requires |p.nonce| == NONCE_LEN && |p.text| % 4 == 0 && IsIdeal(a)
    ensures |Encoded(ntp, p, a)| == |Covered(ntp, p)| + 40 + |p.text|
  {
    var x := Covered(ntp, p);
    SealSize(a, p.key, p.nonce, p.text, x);
    AuthSize(p.nonce, a.seal(p.key, p.nonce, p.text, x));
    hide IsIdeal, AuthValue, Covered;
  }

  // Both packets fit exactly if the request is made with two cookies or more; with only
  // one, encoding the request panics.
  lemma FitsWithTwo(d: Data, id: Octets, nonce: Octets, ntp: Octets, a: Aead)
    requires IsRequest(d, id, nonce, ntp) && IsIdeal(a)
    ensures Fits(ntp, RequestPacket(d, id, nonce), a) <==> |d.cookies| >= 2
    ensures |Covered(ntp, RequestPacket(d, id, nonce))| + 8 <= MAX_PACKET_LEN <==> |d.cookies| >= 2
  {
    RequestSize(d, id, nonce, ntp, a);
  }

  // The server finds the first cookie of the client, authenticates the request, and counts
  // the cookies to return.
  lemma RequestArrives(d: Data, id: Octets, nonce: Octets, ntp: Octets, a: Aead)
    requires IsRequest(d, id, nonce, ntp) && IsIdeal(a) && |d.cookies| >= 2
    ensures var p := RequestPacket(d, id, nonce);
      var b, f := Encoded(ntp, p, a), Received(ntp, p, a);
      && DecodedFrom(b, NTP_PACKET_LEN, NO_FIELDS) == Decoded(f)
      && f.id == Some(id) && f.cookies != [] && f.cookies[0] == d.cookies[0]
      && |f.cookies| + f.placeholders == NUM_STORED_COOKIES + 1 - |d.cookies|
      && f.auth.value.pos <= |b| && Authenticated(f, b, d.c2s, a) == Cookies(f.cookies)
  {
    var p := RequestPacket(d, id, nonce);
    RequestSize(d, id, nonce, ntp, a);
    RoundTrip(ntp, p, a);
    assert Padded(id) == id && Padded(d.cookies[0]) == d.cookies[0];
    Opens(ntp, p, a);
  }

  // The sealed text of a packet opens to what was sealed.
  lemma Opens(ntp: Octets, p: Packet, a: Aead)
    requires Fits(ntp, p, a) && IsIdeal(a)
    ensures var b, f := Encoded(ntp, p, a), Received(ntp, p, a);
      f.auth.value.pos <= |b| && Authenticated(f, b, p.key, a) == CookiesFrom(p.text, 0, f.cookies)
  {
    RoundTrip(ntp, p, a);
    hide CookiesFrom, DecodedFrom;
  }

  lemma ResponseArrives(cs: seq<Octets>, key: Octets, id: Octets, nonce: Octets, ntp: Octets, a: Aead)
    requires IsResponse(cs, id, nonce, ntp) && IsIdeal(a) && |cs| <= 7
    ensures var p := Packet(id, [], [], key, nonce, CookieFields(cs));
      var b, f := Encoded(ntp, p, a), Received(ntp, p, a);
      && DecodedFrom(b, NTP_PACKET_LEN, NO_FIELDS) == Decoded(f)
      && f.id == Some(id)
      && f.auth.value.pos <= |b| && Authenticated(f, b, key, a) == Cookies(cs)
  {
    var p := Packet(id, [], [], key, nonce, CookieFields(cs));
    ResponseSize(cs, key, id, nonce, ntp, a);
    RoundTrip(ntp, p, a);
    Opens(ntp, p, a);
    AllSize(cs, COOKIE_LEN);
    SealedCookiesReturn(cs, COOKIE_LEN);
    assert Padded(id) == id && AllPadded([] + []) == [];
  }
}
