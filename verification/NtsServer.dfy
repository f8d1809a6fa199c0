/** How the server answers a packet with NTS extension fields: the part of runIPServer
    between receiving and sending (core/server/server_ip.go). */
module NtsServer {
  import opened Bytes
  import opened CookiePool
  import Cookies
  import opened GoInt
  import opened KeyProvider
  import opened NtsCodec

  // Silence: the packet is dropped. Crash: a panic. Hang: decoding does not end.
  datatype Answer = Silence | Crash | Hang | Response(b: Octets)

  // What the server finds in a packet: the session keys in its cookie, its ID, and the number
  // of cookies to return.
  datatype Admission = Rejected | Crashes | Hangs | Admitted(keys: Cookies.Cookie, id: Octets, count: nat)

  ghost function AdmissionOf(s: State, b: Octets, now: int, a: Aead): Admission {
    var d := DecodedFrom(b, NTP_PACKET_LEN, NO_FIELDS);
    DecodedHas(b, NTP_PACKET_LEN, NO_FIELDS);
    if d.Stalled? then Hangs
    else if !d.Decoded? || d.fields.cookies == [] then Rejected
    else KeysOf(s, d.fields, b, now, a)
  }

  // With the key that is named in the first cookie, if it is known and valid.
  ghost function KeysOf(s: State, f: Fields, b: Octets, now: int, a: Aead): Admission
    requires f.cookies != [] && f.id.Some? && f.auth.Some? && f.auth.value.pos <= |b|
  {
    var e := Cookies.DecodedFrom(Cookies.ENCRYPTED_COOKIE, f.cookies[0], 0, Cookies.NOTHING);
    if e.Panic? then Crashes
    else if e.UnexpectedData? then Rejected
    else
      var key := Lookup(s, e.cookie.number, now);
      if key.None? then Rejected
      else
        var keys := Cookies.Decrypted(e.cookie, key.value.value, a);
        if keys.Panic? then Crashes
        else if keys.UnexpectedData? then Rejected
        else AdmittedBy(f, b, keys.cookie, a)
  }

  // The request is authentic under the client-to-server key.
  ghost function AdmittedBy(f: Fields, b: Octets, keys: Cookies.Cookie, a: Aead): Admission
    requires f.id.Some? && f.auth.Some? && f.auth.value.pos <= |b|
  {
    var r := Authenticated(f, b, keys.second, a);
    if r.Endless? then Hangs
    else if r.Forgery? then Rejected
    else Admitted(keys, f.id.value, |r.cookies| + f.placeholders)
  }

  // A packet crashes the server exactly if it is decoded, its first cookie is cut off, or the
  // cookie is good and what was sealed in it is cut off.
  lemma CrashesOnCut(s: State, b: Octets, now: int, a: Aead)
    ensures AdmissionOf(s, b, now, a) == Crashes <==>
            var d := DecodedFrom(b, NTP_PACKET_LEN, NO_FIELDS);
            && d.Decoded? && d.fields.cookies != []
            && var e := Cookies.DecodedFrom(Cookies.ENCRYPTED_COOKIE, d.fields.cookies[0], 0, Cookies.NOTHING);
               || Cookies.MeetsCut(Cookies.ENCRYPTED_COOKIE, d.fields.cookies[0], 0)
               || (e.Decoded? && Lookup(s, e.cookie.number, now).Some? &&
                   var o := a.open(Lookup(s, e.cookie.number, now).value.value, e.cookie.first, e.cookie.second, []);
                   o.Text? && Cookies.MeetsCut(Cookies.SERVER_COOKIE, o.text, 0))
  {
    var d := DecodedFrom(b, NTP_PACKET_LEN, NO_FIELDS);
    if d.Decoded? && d.fields.cookies != [] {
      Cookies.PanicsOnCut(Cookies.ENCRYPTED_COOKIE, d.fields.cookies[0], 0, Cookies.NOTHING);
      var e := Cookies.DecodedFrom(Cookies.ENCRYPTED_COOKIE, d.fields.cookies[0], 0, Cookies.NOTHING);
      if e.Decoded? && Lookup(s, e.cookie.number, now).Some? {
        var o := a.open(Lookup(s, e.cookie.number, now).value.value, e.cookie.first, e.cookie.second, []);
        if o.Text? {
          Cookies.PanicsOnCut(Cookies.SERVER_COOKIE, o.text, 0, Cookies.NOTHING);
        }
      }
    }
    hide DecodedFrom, Cookies.DecodedFrom, Cookies.MeetsCut, Authenticated, Lookup;
  }

  // The packet decodes to f, and its first cookie opens to the session keys, under a key that
  // is held and valid at time now.
  ghost predicate Carries(s: State, b: Octets, now: int, a: Aead, f: Fields, keys: Cookies.Cookie) {
    && DecodedFrom(b, NTP_PACKET_LEN, NO_FIELDS) == Decoded(f) && f.cookies != []
    && var e := Cookies.DecodedFrom(Cookies.ENCRYPTED_COOKIE, f.cookies[0], 0, Cookies.NOTHING);
    && e.Decoded? && e.cookie.number in s.keys
    && var k := s.keys[e.cookie.number];
    && k.notBefore <= now <= k.notAfter
    && var o := a.open(k.value, e.cookie.first, e.cookie.second, []);
    && o.Text? && Cookies.DecodedFrom(Cookies.SERVER_COOKIE, o.text, 0, Cookies.NOTHING) == Cookies.Decoded(keys)
  }

  // Such a packet is admitted if its authenticator opens under the client-to-server key, and
  // the sealed text has no field of length 0; it is rejected if the authenticator does not
  // open.
  lemma CarriedIsAdmitted(s: State, b: Octets, now: int, a: Aead, f: Fields, keys: Cookies.Cookie)
    requires Carries(s, b, now, a, f, keys)
    ensures f.id.Some? && f.auth.Some? && f.auth.value.pos <= |b|
    ensures var o := a.open(keys.second, f.auth.value.nonce, f.auth.value.sealed, b[..f.auth.value.pos]);
      var m := AdmissionOf(s, b, now, a);
      if o.Forged? then m == Rejected
      else if MeetsEmpty(o.text, 0, false) then m == Hangs
      else
        var r := CookiesFrom(o.text, 0, f.cookies);
        r.Cookies? && m == Admitted(keys, f.id.value, |r.cookies| + f.placeholders)
  {
    hide DecodedFrom, Cookies.DecodedFrom, CookiesFrom, MeetsEmpty;
    DecodedHas(b, NTP_PACKET_LEN, NO_FIELDS);
    var o := a.open(keys.second, f.auth.value.nonce, f.auth.value.sealed, b[..f.auth.value.pos]);
    if o.Text? {
      EndlessOnEmpty(o.text, 0, f.cookies);
    }
  }

  // No other packet is admitted.
  lemma AdmittedCarries(s: State, b: Octets, now: int, a: Aead)
    ensures var m, d := AdmissionOf(s, b, now, a), DecodedFrom(b, NTP_PACKET_LEN, NO_FIELDS);
      m.Admitted? ==> d.Decoded? && Carries(s, b, now, a, d.fields, m.keys)
  {
    hide DecodedFrom, Cookies.DecodedFrom, Authenticated;
  }

  // Its authenticator does not open.
  ghost predicate IsForged(s: State, b: Octets, now: int, a: Aead) {
    exists f, keys :: IsForgedFor(s, b, now, a, f, keys)
  }

  ghost predicate IsForgedFor(s: State, b: Octets, now: int, a: Aead, f: Fields, keys: Cookies.Cookie) {
    && Carries(s, b, now, a, f, keys)
    && f.auth.Some? && f.auth.value.pos <= |b|
    && a.open(keys.second, f.auth.value.nonce, f.auth.value.sealed, b[..f.auth.value.pos]).Forged?
  }

  lemma ForgedIsRejected(s: State, b: Octets, now: int, a: Aead)
    requires IsForged(s, b, now, a)
    ensures AdmissionOf(s, b, now, a) == Rejected
  {
    var f, keys :| IsForgedFor(s, b, now, a, f, keys);
    hide Carries, AdmissionOf;
    CarriedIsAdmitted(s, b, now, a, f, keys);
  }

  method Admit(p: Provider, b: Octets, now: int, a: Aead) returns (r: Admission)
    ensures r == AdmissionOf(p.View(), b, now, a)
  {
    var d := DecodePacket(b);
    DecodedHas(b, NTP_PACKET_LEN, NO_FIELDS);
    if d.Stalled? {
      return Hangs;
    }
    if !d.Decoded? {
      return Rejected;
    }
    var f := d.fields;
    if f.cookies == [] {
      return Rejected;
    }
    var e := Cookies.Decode(Cookies.ENCRYPTED_COOKIE, f.cookies[0]);
    if e.Panic? {
      return Crashes;
    }
    if e.UnexpectedData? {
      return Rejected;
    }
    var key := p.Get(e.cookie.number, now);
    if key.None? {
      return Rejected;
    }
    var keys := Cookies.Decrypt(e.cookie, key.value.value, a);
    if keys.Panic? {
      return Crashes;
    }
    if keys.UnexpectedData? {
      return Rejected;
    }
    var sealed := Authenticate(f, b, keys.cookie.second, a);
    if sealed.Endless? {
      return Hangs;
    }
    if sealed.Forgery? {
      return Rejected;
    }
    r := Admitted(keys.cookie, f.id.value, |sealed.cookies| + f.placeholders);
  }

  /* ---- New cookies ---- */

  // The cookie with nonce number k.
  ghost function NewCookie(keys: Cookies.Cookie, key: Key, nonces: nat -> Octets, k: nat, a: Aead): Octets {
    Cookies.Encoded(Cookies.ENCRYPTED_COOKIE, Cookies.Encrypted(keys, key.value, key.id, nonces(k), a))
  }

  ghost function NewCookies(keys: Cookies.Cookie, key: Key, nonces: nat -> Octets, n: nat, a: Aead): (r: seq<Octets>)
    ensures |r| == n && forall k :: 0 <= k < n ==> r[k] == NewCookie(keys, key, nonces, k, a)
  {
    seq(n, k requires 0 <= k < n => NewCookie(keys, key, nonces, k, a))
  }

  // The nonces are the random bytes drawn in turn.
  method MakeCookies(keys: Cookies.Cookie, key: Key, nonces: nat -> Octets, n: nat, a: Aead) returns (cs: seq<Octets>)
    ensures cs == NewCookies(keys, key, nonces, n, a)
    ensures |cs| == n
    ensures forall k :: 0 <= k < n ==>
              var sealed := a.seal(key.value, nonces(k), Cookies.Encoded(Cookies.SERVER_COOKIE, keys), []);
              cs[k] == Cookies.Encoded(Cookies.ENCRYPTED_COOKIE, Cookies.Cookie(key.id % 0x1_0000, nonces(k), sealed))
  {
    cs := [];
    var k := 0;
    while k < n
      invariant 0 <= k <= n && cs == NewCookies(keys, key, nonces, k, a)
    {
      var e := Cookies.EncryptWithNonce(keys, key.value, key.id, nonces(k), a);
      var b := Cookies.Encode(Cookies.ENCRYPTED_COOKIE, e);
      cs := cs + [b[..]];
      k := k + 1;
    }
  }

  /* ---- The answer ---- */

  // The response with the cookies to an admitted request.
  ghost function ResponseTo(id: Octets, keys: Cookies.Cookie, cs: seq<Octets>, nonce: Octets): Packet
    requires cs != []
  {
    Packet(id, [], [], keys.first, nonce, ResponseText(cs))
  }

  // What is sent, with header ntp.
  ghost function AnswerWith(id: Octets, keys: Cookies.Cookie, cs: seq<Octets>, nonce: Octets, ntp: Octets, a: Aead)
    : Answer
  {
    if cs == [] then Silence
    else
      var q := ResponseTo(id, keys, cs, nonce);
      if HeadersFit(cs, 0, ResponseTextSize(cs)) && |id| >= 32 && |Covered(ntp, q)| + 8 <= MAX_PACKET_LEN
      then Response(Clip(Encoded(ntp, q, a), MAX_PACKET_LEN)) else Crash
  }

  method Respond(id: Octets, keys: Cookies.Cookie, cs: seq<Octets>, nonce: Octets, ntp: Octets, a: Aead)
    returns (r: Answer)
    requires |ntp| == NTP_PACKET_LEN
    ensures r == AnswerWith(id, keys, cs, nonce, ntp, a)
    ensures cs == [] ==> r == Silence
    ensures cs != [] ==>
      var q := Packet(id, [], [], keys.first, nonce, ResponseText(cs));
      r == if HeadersFit(cs, 0, |cs| * (4 + |cs[0]|)) && |id| >= 32 && |Covered(ntp, q)| + 8 <= MAX_PACKET_LEN
           then Response(Clip(Encoded(ntp, q, a), MAX_PACKET_LEN)) else Crash
  {
    hide Covered, Encoded, HeadersFit, ResponseText;
    if cs == [] {
      return Silence;
    }
    var ok, q := NewResponsePacket(cs, keys.first, id, nonce);
    if !ok {
      return Crash;
    }
    var buf, n := new Byte[|ntp|](i requires 0 <= i < |ntp| => ntp[i]), 0;
    assert buf[..NTP_PACKET_LEN] == ntp;
    ok, buf, n := EncodePacket(buf, q, a);
    if !ok {
      return Crash;
    }
    r := Response(buf[..n]);
  }

  // What else an answer depends on: whether the header is that of a valid request, the
  // readings of the clock in Get and in Current, random bytes, and the response header.
  datatype Visit = Visit(valid: bool, now: int, current: int, later: int,
                         value: Octets, nonces: nat -> Octets, nonce: Octets, ntp: Octets)

  method AnswerTo(p: Provider, b: Octets, v: Visit, a: Aead) returns (r: Answer)
    requires p.currentID < MAX_INT64 && |v.value| == 32 && |v.ntp| == NTP_PACKET_LEN && |b| > NTP_PACKET_LEN
    modifies p
    ensures var m := AdmissionOf(old(p.View()), b, v.now, a);
      if m.Admitted? && v.valid then
        && CurrentStep(old(p.View()), p.View(), v.current, v.later)
        && p.currentID in p.keys
        && var cs := NewCookies(m.keys, p.keys[p.currentID], v.nonces, m.count, a);
           r == AnswerWith(m.id, m.keys, cs, v.nonce, v.ntp, a)
      else
        && p.View() == old(p.View())
        && r == if m.Hangs? then Hang else if m.Crashes? then Crash else Silence
    ensures IsForged(old(p.View()), b, v.now, a) ==> r == Silence && p.View() == old(p.View())
  {
    hide AdmissionOf, NewCookies, AnswerWith, CurrentStep, IsForged;
    var m := Admit(p, b, v.now, a);
    if IsForged(p.View(), b, v.now, a) {
      ForgedIsRejected(p.View(), b, v.now, a);
    }
    match m
    case Hangs => r := Hang;
    case Crashes => r := Crash;
    case Rejected => r := Silence;
    case Admitted(keys, id, count) =>
      if !v.valid {
        return Silence;
      }
      var key := p.Current(v.current, v.later, v.value);
      var cs := MakeCookies(keys, key, v.nonces, count, a);
      r := Respond(id, keys, cs, v.nonce, v.ntp, a);
  }
}
