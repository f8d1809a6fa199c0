/** The NTS extension fields of an NTP packet (net/nts/nts.go; sections 5.3 to 5.7 of
    RFC 8915). */
module NtsCodec {
  import opened Bytes
  import opened Options

  const MAX_PACKET_LEN := 1024
  const NTP_PACKET_LEN := 48
  const UNIQUE_IDENTIFIER := 0x104
  const COOKIE := 0x204
  const COOKIE_PLACEHOLDER := 0x304
  const AUTHENTICATOR := 0x404
  const NONCE_LEN := 16

  // A packet to encode. The nonce is the one that encoding draws.
  datatype Packet = Packet(id: Octets, cookies: seq<Octets>, placeholders: seq<Octets>,
                           key: Octets, nonce: Octets, text: Octets)

  /* ---- The format ---- */

  function Header(t: nat, v: nat): (b: Octets)
    ensures |b| == 4
  {
    U16(t) + U16(4 + v)
  }

  function Field(t: nat, v: Octets): (b: Octets)
    ensures |b| == 4 + |v|
  {
    Header(t, |v|) + v
  }

  ghost function CookieFields(cs: seq<Octets>): Octets {
    if cs == [] then [] else Field(COOKIE, Padded(cs[0])) + CookieFields(cs[1..])
  }

  function AuthValue(nonce: Octets, sealed: Octets): (b: Octets)
    ensures |b| >= 4 + |nonce| + |sealed|
  {
    U16(|nonce|) + U16(|sealed|) + Padded(nonce) + Padded(sealed)
  }

  // What the authenticator covers: the packet up to it.
  ghost function Covered(ntp: Octets, p: Packet): Octets {
    ntp + Field(UNIQUE_IDENTIFIER, Padded(p.id)) + CookieFields(p.cookies) + CookieFields(p.placeholders)
  }

  ghost function Encoded(ntp: Octets, p: Packet, a: Aead): Octets {
    var x := Covered(ntp, p);
    x + Field(AUTHENTICATOR, AuthValue(p.nonce, a.seal(p.key, p.nonce, p.text, x)))
  }

  /* ---- Encoding into a buffer ---- */

  // extHdr.pack, which panics if there is no room for the four bytes.
  method PutHeader(buf: array<Byte>, limit: nat, pos: nat, t: nat, v: nat, ghost x: Octets)
    returns (ok: bool, pos': nat)
    requires Written(buf[..], limit, pos, x)
    modifies buf
    ensures ok <==> |x| + 4 <= limit
    ensures ok ==> Written(buf[..], limit, pos', x + Header(t, v))
    ensures buf[..] == old(buf[..]) || ok
    ensures ok ==> pos <= pos' && Unwritten(buf[..], old(buf[..]), pos')
  {
    if pos + 4 > limit {
      return false, pos;
    }
    ok := true;
    pos' := Put(buf, limit, pos, Header(t, v), x);
  }

  // A value and its padding.
  method PutPadded(buf: array<Byte>, limit: nat, pos: nat, v: Octets, ghost x: Octets) returns (pos': nat)
    requires Written(buf[..], limit, pos, x)
    modifies buf
    ensures Written(buf[..], limit, pos', x + Padded(v))
    ensures pos <= pos' && Unwritten(buf[..], old(buf[..]), pos')
  {
    hide Written, Unwritten;
    var newlen := (|v| + 3) / 4 * 4;
    pos' := Put(buf, limit, pos, v, x);
    ghost var mid, b := pos', buf[..];
    pos' := Put(buf, limit, pos', Zeros(newlen - |v|), x + v);
    UnwrittenFurther(old(buf[..]), b, buf[..], mid, pos');
    assert x + v + Zeros(newlen - |v|) == x + Padded(v);
  }

  // The pack methods of unique identifiers, cookies and placeholders.
  method PutField(buf: array<Byte>, limit: nat, pos: nat, t: nat, v: Octets, ghost x: Octets)
    returns (ok: bool, pos': nat)
    requires Written(buf[..], limit, pos, x)
    modifies buf
    ensures ok <==> |x| + 4 <= limit
    ensures ok ==> Written(buf[..], limit, pos', x + Field(t, Padded(v)))
    ensures ok ==> pos <= pos' && Unwritten(buf[..], old(buf[..]), pos')
  {
    hide Written, Unwritten, Header;
    ok, pos' := PutHeader(buf, limit, pos, t, (|v| + 3) / 4 * 4, x);
    if ok {
      ghost var mid, b := pos', buf[..];
      pos' := PutPadded(buf, limit, pos', v, x + Header(t, |Padded(v)|));
      UnwrittenFurther(old(buf[..]), b, buf[..], mid, pos');
      assert x + Header(t, |Padded(v)|) + Padded(v) == x + Field(t, Padded(v));
    }
  }

  lemma {:induction false} CookieFieldsSum(cs: seq<Octets>, ds: seq<Octets>)
    ensures CookieFields(cs + ds) == CookieFields(cs) + CookieFields(ds)
  {
    if cs == [] {
      assert cs + ds == ds;
    } else {
      assert (cs + ds)[1..] == cs[1..] + ds;
      CookieFieldsSum(cs[1..], ds);
    }
  }

  lemma CookieFieldsLonger(cs: seq<Octets>, k: nat)
    requires k < |cs|
    ensures CookieFields(cs[..k + 1]) == CookieFields(cs[..k]) + Field(COOKIE, Padded(cs[k]))
    ensures |CookieFields(cs[..k + 1])| <= |CookieFields(cs)|
  {
    CookieFieldsSum(cs[..k], [cs[k]]);
    assert cs[..k + 1] == cs[..k] + [cs[k]];
    assert CookieFields([cs[k]]) == Field(COOKIE, Padded(cs[k]));
    CookieFieldsSum(cs[..k + 1], cs[k + 1..]);
    assert cs == cs[..k + 1] + cs[k + 1..];
  }

  // There is room for the header of every field, after n bytes.
  ghost predicate HeadersFit(cs: seq<Octets>, n: nat, limit: nat) {
    forall k :: 0 <= k < |cs| ==> n + |CookieFields(cs[..k])| + 4 <= limit
  }

  lemma NoneWritten(x: Octets, b: Octets, limit: nat, pos: nat, cs: seq<Octets>)
    requires Written(b, limit, pos, x)
    ensures x + CookieFields(cs[..0]) == x && Unwritten(b, b, pos)
  {
  }

  // The loops of EncodePacket over cookies and over placeholders, which are given the type
  // of cookies.
  method PutCookies(buf: array<Byte>, limit: nat, pos: nat, cs: seq<Octets>, ghost x: Octets)
    returns (ok: bool, pos': nat)
    requires Written(buf[..], limit, pos, x)
    modifies buf
    ensures ok <==> HeadersFit(cs, |x|, limit)
    ensures !ok ==> |x| + |CookieFields(cs)| > limit
    ensures ok ==> Written(buf[..], limit, pos', x + CookieFields(cs))
    ensures ok ==> pos <= pos' && Unwritten(buf[..], old(buf[..]), pos')
  {
    hide CookieFields, Field, Padded, Written, Unwritten;
    ok, pos' := true, pos;
    ghost var y := x;
    NoneWritten(x, buf[..], limit, pos, cs);
    var k := 0;
    while k < |cs|
      invariant 0 <= k <= |cs|
      invariant pos <= pos' && Unwritten(buf[..], old(buf[..]), pos')
      invariant y == x + CookieFields(cs[..k]) && Written(buf[..], limit, pos', y)
      invariant forall l :: 0 <= l < k ==> |x| + |CookieFields(cs[..l])| + 4 <= limit
    {
      CookieFieldsLonger(cs, k);
      ghost var mid, b := pos', buf[..];
      ok, pos' := PutField(buf, limit, pos', COOKIE, cs[k], y);
      if !ok {
        return;
      }
      UnwrittenFurther(old(buf[..]), b, buf[..], mid, pos');
      y := y + Field(COOKIE, Padded(cs[k]));
      assert y == x + CookieFields(cs[..k + 1]);
      k := k + 1;
    }
    assert cs[..k] == cs;
  }

  // Authenticator.pack. Its second header, with the two lengths, panics as the first one
  // if there is no room; the ciphertext is cut off if there is none.
  method PutAuthenticator(buf: array<Byte>, limit: nat, pos: nat, key: Octets, nonce: Octets, text: Octets,
                          a: Aead, ghost x: Octets)
    returns (ok: bool, pos': nat)
    requires Written(buf[..], limit, pos, x)
    modifies buf
    ensures ok <==> |x| + 8 <= limit
    ensures ok ==>
      Written(buf[..], limit, pos', x + Field(AUTHENTICATOR, AuthValue(nonce, a.seal(key, nonce, text, x))))
  {
    if pos + 8 > limit {
      return false, pos;
    }
    assert x == buf[..pos];
    var sealed := a.seal(key, nonce, text, buf[..pos]);
    var length := 4 + |nonce| + Padding(|nonce|) + |sealed| + Padding(|sealed|);
    assert length == |AuthValue(nonce, sealed)|;
    assert x + Header(AUTHENTICATOR, length) + U16(|nonce|) + U16(|sealed|) + Padded(nonce) + Padded(sealed)
        == x + Field(AUTHENTICATOR, AuthValue(nonce, sealed));
    hide Written, Header, Field, Padded, U16, AuthValue;
    ghost var y := x + Header(AUTHENTICATOR, length);
    ok, pos' := PutHeader(buf, limit, pos, AUTHENTICATOR, length, x);
    pos' := Put(buf, limit, pos', U16(|nonce|), y);
    pos' := Put(buf, limit, pos', U16(|sealed|), y + U16(|nonce|));
    pos' := PutPadded(buf, limit, pos', nonce, y + U16(|nonce|) + U16(|sealed|));
    pos' := PutPadded(buf, limit, pos', sealed, y + U16(|nonce|) + U16(|sealed|) + Padded(nonce));
  }

  // EncodePacket. The slice b has length 48 and the array its capacity; a new array is
  // used if that is too small. Panics are ok = false.
  method EncodePacket(b: array<Byte>, p: Packet, a: Aead) returns (ok: bool, buf: array<Byte>, n: nat)
    requires b.Length >= NTP_PACKET_LEN
    modifies b
    ensures ok <==> |p.id| >= 32 && |Covered(old(b[..NTP_PACKET_LEN]), p)| + 8 <= MAX_PACKET_LEN
    ensures ok ==> n <= buf.Length && buf[..n] == Clip(Encoded(old(b[..NTP_PACKET_LEN]), p, a), MAX_PACKET_LEN)
    ensures ok ==> NTP_PACKET_LEN <= n && buf[..NTP_PACKET_LEN] == old(b[..NTP_PACKET_LEN])
  {
    ghost var ntp := b[..NTP_PACKET_LEN];
    buf := b;
    if b.Length < MAX_PACKET_LEN {
      buf := new Byte[MAX_PACKET_LEN](
        i requires 0 <= i reads b => if i < NTP_PACKET_LEN && i < b.Length then b[i] else 0);
      assert buf[..NTP_PACKET_LEN] == ntp;
    }
    n := NTP_PACKET_LEN;
    if |p.id| < 32 {
      return false, buf, n;
    }
    ghost var x := ntp;
    hide Field, Padded, AuthValue, CookieFields;
    ok, n := PutField(buf, MAX_PACKET_LEN, n, UNIQUE_IDENTIFIER, p.id, x);
    x := x + Field(UNIQUE_IDENTIFIER, Padded(p.id));
    ok, n := PutCookies(buf, MAX_PACKET_LEN, n, p.cookies, x);
    if ok {
      x := x + CookieFields(p.cookies);
      ok, n := PutCookies(buf, MAX_PACKET_LEN, n, p.placeholders, x);
    }
    if ok {
      x := x + CookieFields(p.placeholders);
      assert x == Covered(ntp, p);
      ok, n := PutAuthenticator(buf, MAX_PACKET_LEN, n, p.key, p.nonce, p.text, a, x);
      if ok {
        StartsWithHeader(buf[..n], ntp, p, a);
        assert buf[..NTP_PACKET_LEN] == buf[..n][..NTP_PACKET_LEN];
      }
    }
  }

  // The packet begins with the NTP header, however much of it is cut off.
  lemma StartsWithHeader(b: Octets, ntp: Octets, p: Packet, a: Aead)
    requires |ntp| == NTP_PACKET_LEN && b == Clip(Encoded(ntp, p, a), MAX_PACKET_LEN)
    ensures |b| >= NTP_PACKET_LEN && b[..NTP_PACKET_LEN] == ntp
  {
    hide Field, AuthValue, CookieFields, Padded;
    var x := Covered(ntp, p);
    assert x[..NTP_PACKET_LEN] == ntp;
    assert Encoded(ntp, p, a)[..|x|] == x;
  }

  /* ---- Decoding ---- */

  datatype Authenticator = Authenticator(nonce: Octets, sealed: Octets, pos: nat)

  // A packet as decoded. Of placeholders only their number is known.
  datatype Fields = Fields(id: Option<Octets>, cookies: seq<Octets>, placeholders: nat, auth: Option<Authenticator>)

  const NO_FIELDS := Fields(None, [], 0, None)

  // Stalled: a field of length 0, which does not end in finite time.
  datatype Decoding = Decoded(fields: Fields) | NoUniqueID | NoAuthenticator | Stalled

  // copy of n bytes from pos on into zeroed memory
  function Read(b: Octets, pos: nat, n: nat): (r: Octets)
    requires pos <= |b|
    ensures |r| == n
    ensures pos + n <= |b| ==> r == b[pos..pos + n]
    ensures forall k :: 0 <= k < n ==> r[k] == if pos + k < |b| then b[pos + k] else 0
  {
    if pos + n <= |b| then b[pos..pos + n] else b[pos..] + Zeros(pos + n - |b|)
  }

  // The length of a value, from the length of its field: uint16 arithmetic.
  function ValueLen(length: nat): (n: nat)
    ensures 4 <= length < 0x1_0000 ==> n == length - 4
    ensures length < 4 ==> n == length + 0xfffc
  {
    (length + 0xfffc) % 0x1_0000
  }

  function Unpacked(b: Octets, pos: nat, f: Fields): Fields
    requires pos + 28 <= |b|
  {
    var t, n := U16At(b, pos), ValueLen(U16At(b, pos + 2));
    if t == UNIQUE_IDENTIFIER then f.(id := Some(Read(b, pos + 4, n)))
    else if t == AUTHENTICATOR then f.(auth := Some(UnpackedAuthenticator(b, pos)))
    else if t == COOKIE then f.(cookies := f.cookies + [Read(b, pos + 4, n)])
    else if t == COOKIE_PLACEHOLDER then f.(placeholders := f.placeholders + 1)
    else f
  }

  // The padding of the nonce is not skipped: nonces are expected to have none.
  function UnpackedAuthenticator(b: Octets, pos: nat): Authenticator
    requires pos + 28 <= |b|
  {
    var nonceLen, sealedLen := U16At(b, pos + 4), U16At(b, pos + 6);
    var n := if pos + 8 + nonceLen <= |b| then nonceLen else |b| - pos - 8;
    Authenticator(Read(b, pos + 8, nonceLen), Read(b, pos + 8 + n, sealedLen), pos)
  }

  // The end of DecodePacket.
  function Finished(f: Fields): Decoding {
    if f.id.None? then NoUniqueID else if f.auth.None? then NoAuthenticator else Decoded(f)
  }

  function DecodedFrom(b: Octets, pos: nat, f: Fields): Decoding
    decreases |b| - pos
  {
    if |b| - pos < 28 || f.auth.Some? then Finished(f)
    else
      var length, g := U16At(b, pos + 2), Unpacked(b, pos, f);
      if length > 0 then DecodedFrom(b, pos + length, g)
      else if g.auth.Some? then Finished(g)
      else Stalled
  }

  method DecodePacket(b: Octets) returns (r: Decoding)
    ensures r == DecodedFrom(b, NTP_PACKET_LEN, NO_FIELDS)
  {
    hide Unpacked, Finished;
    var pos := NTP_PACKET_LEN;
    var f := NO_FIELDS;
    while |b| - pos >= 28 && f.auth.None?
      invariant DecodedFrom(b, pos, f) == DecodedFrom(b, NTP_PACKET_LEN, NO_FIELDS)
      decreases |b| - pos
    {
      var length := U16At(b, pos + 2);
      f := Unpacked(b, pos, f);
      if length == 0 {
        return if f.auth.Some? then Finished(f) else Stalled;
      }
      pos := pos + length;
    }
    r := Finished(f);
  }

  // Authenticate, the cookies of the sealed text.
  datatype Sealed = Cookies(cookies: seq<Octets>) | Forgery | Endless

  function CookiesFrom(text: Octets, pos: nat, cs: seq<Octets>): Sealed
    decreases |text| - pos
  {
    if |text| - pos < 28 then Cookies(cs)
    else
      var length := U16At(text, pos + 2);
      var ds := if U16At(text, pos) != COOKIE then cs else cs + [Read(text, pos + 4, ValueLen(length))];
      if length > 0 then CookiesFrom(text, pos + length, ds) else Endless
  }

  ghost function Authenticated(f: Fields, b: Octets, key: Octets, a: Aead): Sealed
    requires f.auth.Some? && f.auth.value.pos <= |b|
  {
    var o := a.open(key, f.auth.value.nonce, f.auth.value.sealed, b[..f.auth.value.pos]);
    if o.Forged? then Forgery else CookiesFrom(o.text, 0, f.cookies)
  }

  method Authenticate(f: Fields, b: Octets, key: Octets, a: Aead) returns (r: Sealed)
    requires f.auth.Some? && f.auth.value.pos <= |b|
    ensures r == Authenticated(f, b, key, a)
    ensures var o := a.open(key, f.auth.value.nonce, f.auth.value.sealed, b[..f.auth.value.pos]);
      && (o.Forged? ==> r.Forgery?)
      && (o.Text? ==> !r.Forgery? && r == CookiesFrom(o.text, 0, f.cookies))
  {
    var o := a.open(key, f.auth.value.nonce, f.auth.value.sealed, b[..f.auth.value.pos]);
    if o.Forged? {
      return Forgery;
    }
    var text, pos, cs := o.text, 0, f.cookies;
    while |text| - pos >= 28
      invariant CookiesFrom(text, pos, cs) == CookiesFrom(text, 0, f.cookies)
      decreases |text| - pos
    {
      var length := U16At(text, pos + 2);
      if U16At(text, pos) == COOKIE {
        cs := cs + [Read(text, pos + 4, ValueLen(length))];
      }
      if length == 0 {
        return Endless;
      }
      pos := pos + length;
    }
    r := Cookies(cs);
  }

  // A decoded packet has an ID and an authenticator within it.
  lemma {:induction false} DecodedHas(b: Octets, pos: nat, f: Fields)
    requires f.auth.Some? ==> f.auth.value.pos <= |b|
    ensures var r := DecodedFrom(b, pos, f);
      r.Decoded? ==> r.fields.id.Some? && r.fields.auth.Some? && r.fields.auth.value.pos <= |b|
    decreases |b| - pos
  {
    hide DecodedFrom, Unpacked, U16At;
    if |b| - pos < 28 || f.auth.Some? {
      DecodeNone(b, pos, f);
    } else {
      var length, g := U16At(b, pos + 2), Unpacked(b, pos, f);
      DecodeOne(b, pos, f, length, g);
      AuthenticatorUnpacked(b, pos, f);
      if length > 0 {
        DecodedHas(b, pos + length, g);
      }
    }
  }

  // From pos on there is a field of length 0, up to the end or to an authenticator if that
  // ends the packet.
  ghost predicate MeetsEmpty(b: Octets, pos: nat, authenticatorEnds: bool)
    decreases |b| - pos
  {
    && |b| - pos >= 28
    && !(authenticatorEnds && U16At(b, pos) == AUTHENTICATOR)
    && (U16At(b, pos + 2) == 0 || MeetsEmpty(b, pos + U16At(b, pos + 2), authenticatorEnds))
  }

  // One turn of the loop of DecodePacket.
  lemma DecodeOne(b: Octets, pos: nat, f: Fields, length: nat, g: Fields)
    requires pos + 28 <= |b| && f.auth.None? && length == U16At(b, pos + 2) && g == Unpacked(b, pos, f)
    ensures DecodedFrom(b, pos, f) ==
            if length > 0 then DecodedFrom(b, pos + length, g) else if g.auth.Some? then Finished(g) else Stalled
  {
    hide Unpacked, U16At;
  }

  // Decoding stalls exactly if it meets such a field.
  lemma {:induction false} StallsOnEmpty(b: Octets, pos: nat, f: Fields)
    requires f.auth.None?
    ensures DecodedFrom(b, pos, f) == Stalled <==> MeetsEmpty(b, pos, true)
    decreases |b| - pos
  {
    hide DecodedFrom, Unpacked, U16At;
    if |b| - pos >= 28 {
      var length, g := U16At(b, pos + 2), Unpacked(b, pos, f);
      DecodeOne(b, pos, f, length, g);
      AuthenticatorUnpacked(b, pos, f);
      if length > 0 && g.auth.None? {
        StallsOnEmpty(b, pos + length, g);
      } else if length > 0 {
        DecodeNone(b, pos + length, g);
      }
    } else {
      DecodeNone(b, pos, f);
    }
  }

  lemma DecodeNone(b: Octets, pos: nat, f: Fields)
    requires |b| - pos < 28 || f.auth.Some?
    ensures DecodedFrom(b, pos, f) == Finished(f)
  {
  }

  lemma AuthenticatorUnpacked(b: Octets, pos: nat, f: Fields)
    requires f.auth.None? && pos + 28 <= |b|
    ensures var g := Unpacked(b, pos, f);
      && (g.auth.Some? <==> U16At(b, pos) == AUTHENTICATOR)
      && (g.auth.Some? ==> g.auth.value.pos == pos)
  {
    hide U16At, Read, ValueLen;
  }

  lemma {:induction false} EndlessOnEmpty(text: Octets, pos: nat, cs: seq<Octets>)
    ensures CookiesFrom(text, pos, cs) == Endless <==> MeetsEmpty(text, pos, false)
    ensures !CookiesFrom(text, pos, cs).Forgery?
    decreases |text| - pos
  {
    if |text| - pos >= 28 {
      var length := U16At(text, pos + 2);
      var ds := if U16At(text, pos) != COOKIE then cs else cs + [Read(text, pos + 4, ValueLen(length))];
      if length > 0 {
        EndlessOnEmpty(text, pos + length, ds);
      }
    }
  }

  /* ---- Reading fields ---- */

  // At pos, b has a field of type t with value v.
  ghost predicate HasField(b: Octets, pos: nat, t: nat, v: Octets) {
    && pos + 4 + |v| <= |b|
    && U16At(b, pos) == t && U16At(b, pos + 2) == 4 + |v|
    && b[pos + 4..pos + 4 + |v|] == v
  }

  lemma FieldRead(x: Octets, t: nat, v: Octets, rest: Octets)
    requires t < 0x1_0000 && 4 + |v| < 0x1_0000
    ensures HasField(x + Field(t, v) + rest, |x|, t, v)
  {
    var b, f, h, n := x + Field(t, v) + rest, Field(t, v), U16(t), U16(4 + |v|);
    assert f == h + n + v;
    hide Field, U16, U16At;
    Regroup(x, f, [], rest);
    assert f + [] == f;
    ThreeParts(b, |x|, h, n, v);
    U16RoundTrip(t, b, |x|);
    U16RoundTrip(4 + |v|, b, |x| + 2);
  }

  lemma ValueRead(b: Octets, pos: nat, t: nat, v: Octets)
    requires HasField(b, pos, t, v)
    ensures ValueLen(U16At(b, pos + 2)) == |v| && Read(b, pos + 4, |v|) == v
  {
  }

  // From pos on, b has fields with the cookies cs.
  ghost predicate HasCookies(b: Octets, pos: nat, cs: seq<Octets>)
    decreases |cs|
  {
    cs != [] ==> HasField(b, pos, COOKIE, cs[0]) && HasCookies(b, pos + 4 + |cs[0]|, cs[1..])
  }

  ghost function Size(cs: seq<Octets>): nat {
    if cs == [] then 0 else 4 + |cs[0]| + Size(cs[1..])
  }

  ghost function AllPadded(cs: seq<Octets>): (r: seq<Octets>)
    ensures |r| == |cs| && forall i :: 0 <= i < |cs| ==> r[i] == Padded(cs[i])
  {
    seq(|cs|, i requires 0 <= i < |cs| => Padded(cs[i]))
  }

  lemma {:induction false} CookieFieldsSize(cs: seq<Octets>)
    ensures |CookieFields(cs)| == Size(AllPadded(cs))
  {
    if cs != [] {
      assert AllPadded(cs)[1..] == AllPadded(cs[1..]);
      CookieFieldsSize(cs[1..]);
    }
  }

  lemma FirstCookieField(cs: seq<Octets>)
    requires cs != []
    ensures CookieFields(cs) == Field(COOKIE, Padded(cs[0])) + CookieFields(cs[1..])
    ensures AllPadded(cs)[1..] == AllPadded(cs[1..])
  {
  }

  lemma {:induction false} CookiesRead(x: Octets, cs: seq<Octets>, rest: Octets)
    requires |CookieFields(cs)| < 0x1_0000
    ensures HasCookies(x + CookieFields(cs) + rest, |x|, AllPadded(cs))
    decreases |cs|
  {
    hide CookieFields, Field, AllPadded, Padded, HasField;
    if cs == [] {
      assert AllPadded(cs) == [];
    } else {
      var c, f, g := Padded(cs[0]), Field(COOKIE, Padded(cs[0])), CookieFields(cs[1..]);
      FirstCookieField(cs);
      Regroup(x, f, g, rest);
      FieldRead(x, COOKIE, c, g + rest);
      Assoc(x + f, g, rest);
      CookiesRead(x + f, cs[1..], rest);
    }
  }

  /* ---- Decoding any fields ---- */

  datatype ExtensionField = ExtensionField(t: nat, v: Octets)

  // From pos on, b has the fields fs, each of them with 28 bytes left at least.
  ghost predicate HasFields(b: Octets, pos: nat, fs: seq<ExtensionField>)
    decreases |fs|
  {
    fs != [] ==>
      && pos + 28 <= |b| && HasField(b, pos, fs[0].t, fs[0].v)
      && HasFields(b, pos + 4 + |fs[0].v|, fs[1..])
  }

  ghost function FieldsSize(fs: seq<ExtensionField>): nat {
    if fs == [] then 0 else 4 + |fs[0].v| + FieldsSize(fs[1..])
  }

  // The values of all fields of type t, in order.
  ghost function Values(fs: seq<ExtensionField>, t: nat): seq<Octets> {
    if fs == [] then [] else (if fs[0].t == t then [fs[0].v] else []) + Values(fs[1..], t)
  }

  // What decoding makes of the fields fs after those in f.
  ghost predicate IsAfter(g: Fields, f: Fields, fs: seq<ExtensionField>) {
    var ids := Values(fs, UNIQUE_IDENTIFIER);
    && g.id == (if ids == [] then f.id else Some(ids[|ids| - 1]))
    && g.cookies == f.cookies + Values(fs, COOKIE)
    && g.placeholders == f.placeholders + |Values(fs, COOKIE_PLACEHOLDER)|
    && g.auth == f.auth
  }

  // One field: the last unique identifier counts, cookies are collected, placeholders are
  // counted, and fields of other types are ignored.
  lemma DecodeField(b: Octets, pos: nat, e: ExtensionField, f: Fields) returns (g: Fields)
    requires HasField(b, pos, e.t, e.v) && pos + 28 <= |b| && f.auth.None? && e.t != AUTHENTICATOR
    ensures DecodedFrom(b, pos, f) == DecodedFrom(b, pos + 4 + |e.v|, g)
    ensures g.id == (if e.t == UNIQUE_IDENTIFIER then Some(e.v) else f.id)
    ensures g.cookies == (if e.t == COOKIE then f.cookies + [e.v] else f.cookies)
    ensures g.placeholders == (if e.t == COOKIE_PLACEHOLDER then f.placeholders + 1 else f.placeholders)
    ensures g.auth == f.auth
  {
    hide DecodedFrom, ValueLen, Read;
    ValueRead(b, pos, e.t, e.v);
    g := Unpacked(b, pos, f);
    DecodeOne(b, pos, f, 4 + |e.v|, g);
  }

  lemma {:induction false} DecodeFields(b: Octets, pos: nat, fs: seq<ExtensionField>, f: Fields) returns (g: Fields)
    requires HasFields(b, pos, fs) && f.auth.None? && Values(fs, AUTHENTICATOR) == []
    ensures DecodedFrom(b, pos, f) == DecodedFrom(b, pos + FieldsSize(fs), g)
    ensures IsAfter(g, f, fs)
    decreases |fs|
  {
    hide DecodedFrom, HasField;
    if fs == [] {
      g := f;
    } else {
      g := DecodeField(b, pos, fs[0], f);
      g := DecodeFields(b, pos + 4 + |fs[0].v|, fs[1..], g);
    }
  }

  // Whatever fields a packet has: it decodes to them if there is a unique identifier and an
  // authenticator after them; otherwise it is an error, which names the one that is missing.
  lemma DecodesFields(b: Octets, fs: seq<ExtensionField>, nonce: Octets, sealed: Octets)
    requires HasFields(b, NTP_PACKET_LEN, fs) && Values(fs, AUTHENTICATOR) == []
    ensures var end, ids := NTP_PACKET_LEN + FieldsSize(fs), Values(fs, UNIQUE_IDENTIFIER);
      var r := DecodedFrom(b, NTP_PACKET_LEN, NO_FIELDS);
      && (|b| - end < 28 ==> r == if ids == [] then NoUniqueID else NoAuthenticator)
      && (HasAuthenticator(b, end, nonce, sealed) ==>
            r == if ids == [] then NoUniqueID
                 else Decoded(Fields(Some(ids[|ids| - 1]), Values(fs, COOKIE), |Values(fs, COOKIE_PLACEHOLDER)|,
                                     Some(Authenticator(nonce, sealed, end)))))
  {
    hide DecodedFrom, HasFields, Values, FieldsSize, HasAuthenticator;
    var end := NTP_PACKET_LEN + FieldsSize(fs);
    var g := DecodeFields(b, NTP_PACKET_LEN, fs, NO_FIELDS);
    if |b| - end < 28 {
      DecodeNone(b, end, g);
    }
    if HasAuthenticator(b, end, nonce, sealed) {
      DecodeAuthenticator(b, end, nonce, sealed, g);
    }
    assert [] + Values(fs, COOKIE) == Values(fs, COOKIE);
  }

  // The cookies of a sealed text with any fields.
  lemma {:induction false} OpenFields(text: Octets, pos: nat, fs: seq<ExtensionField>, ds: seq<Octets>)
    requires HasFields(text, pos, fs) && |text| - (pos + FieldsSize(fs)) < 28
    ensures CookiesFrom(text, pos, ds) == Cookies(ds + Values(fs, COOKIE))
    decreases |fs|
  {
    if fs == [] {
      assert ds + Values(fs, COOKIE) == ds;
    } else {
      var e := fs[0];
      ValueRead(text, pos, e.t, e.v);
      var ds' := if e.t == COOKIE then ds + [e.v] else ds;
      OpenFields(text, pos + 4 + |e.v|, fs[1..], ds');
      assert ds' + Values(fs[1..], COOKIE) == ds + Values(fs, COOKIE);
    }
  }

  /* ---- Decoding what was encoded ---- */

  lemma DecodeCookie(b: Octets, pos: nat, c: Octets, f: Fields)
    requires HasField(b, pos, COOKIE, c) && pos + 28 <= |b| && f.auth.None?
    ensures DecodedFrom(b, pos, f) == DecodedFrom(b, pos + 4 + |c|, f.(cookies := f.cookies + [c]))
  {
    hide DecodedFrom;
    ValueRead(b, pos, COOKIE, c);
    DecodeOne(b, pos, f, 4 + |c|, f.(cookies := f.cookies + [c]));
  }

  lemma DecodeID(b: Octets, pos: nat, id: Octets, f: Fields)
    requires HasField(b, pos, UNIQUE_IDENTIFIER, id) && pos + 28 <= |b| && f.auth.None?
    ensures DecodedFrom(b, pos, f) == DecodedFrom(b, pos + 4 + |id|, f.(id := Some(id)))
  {
    hide DecodedFrom;
    ValueRead(b, pos, UNIQUE_IDENTIFIER, id);
    DecodeOne(b, pos, f, 4 + |id|, f.(id := Some(id)));
  }

  // Cookies are decoded in order.
  lemma {:induction false} DecodeCookies(b: Octets, pos: nat, cs: seq<Octets>, f: Fields)
    requires HasCookies(b, pos, cs) && pos + Size(cs) + 28 <= |b| && f.auth.None?
    ensures DecodedFrom(b, pos, f) == DecodedFrom(b, pos + Size(cs), f.(cookies := f.cookies + cs))
    decreases |cs|
  {
    hide DecodedFrom, HasField;
    if cs == [] {
      assert f.cookies + cs == f.cookies;
    } else {
      DecodeCookie(b, pos, cs[0], f);
      DecodeCookies(b, pos + 4 + |cs[0]|, cs[1..], f.(cookies := f.cookies + [cs[0]]));
      assert f.cookies + cs == f.cookies + [cs[0]] + cs[1..];
    }
  }

  // At pos, b has an authenticator.
  ghost predicate HasAuthenticator(b: Octets, pos: nat, nonce: Octets, sealed: Octets) {
    && pos + 28 <= |b| && pos + 8 + |nonce| + |sealed| <= |b|
    && U16At(b, pos) == AUTHENTICATOR && U16At(b, pos + 4) == |nonce| && U16At(b, pos + 6) == |sealed|
    && b[pos + 8..pos + 8 + |nonce|] == nonce
    && b[pos + 8 + |nonce|..pos + 8 + |nonce| + |sealed|] == sealed
  }

  lemma DecodeAuthenticator(b: Octets, pos: nat, nonce: Octets, sealed: Octets, f: Fields)
    requires f.auth.None? && HasAuthenticator(b, pos, nonce, sealed)
    ensures DecodedFrom(b, pos, f) ==
            if f.id.None? then NoUniqueID else Decoded(f.(auth := Some(Authenticator(nonce, sealed, pos))))
  {
    assert UnpackedAuthenticator(b, pos) == Authenticator(nonce, sealed, pos);
    hide UnpackedAuthenticator, HasAuthenticator, U16At;
  }

  // The parts of the value of an authenticator.
  lemma AuthValueParts(b: Octets, pos: nat, nonce: Octets, sealed: Octets)
    requires |nonce| == NONCE_LEN && HasField(b, pos, AUTHENTICATOR, AuthValue(nonce, sealed))
    ensures pos + 24 + |sealed| <= |b|
    ensures b[pos + 4..pos + 6] == U16(|nonce|) && b[pos + 6..pos + 8] == U16(|sealed|)
    ensures b[pos + 8..pos + 24] == nonce && b[pos + 24..pos + 24 + |sealed|] == sealed
  {
    var n, m, p := U16(|nonce|), U16(|sealed|), Padded(sealed);
    var v := AuthValue(nonce, sealed);
    assert Padded(nonce) == nonce;
    assert v == n + m + nonce + p;
    hide U16, U16At, Padded, AuthValue;
    ThreeParts(b, pos + 4, n, m, nonce + p);
    assert n + m + (nonce + p) == v;
    ThreeParts(b, pos + 8, nonce, sealed, p[|sealed|..]);
    assert nonce + sealed + p[|sealed|..] == nonce + p;
  }

  lemma AuthenticatorRead(x: Octets, nonce: Octets, sealed: Octets)
    requires |nonce| == NONCE_LEN && 4 <= |sealed| && |AuthValue(nonce, sealed)| + 4 < 0x1_0000
    ensures HasAuthenticator(x + Field(AUTHENTICATOR, AuthValue(nonce, sealed)), |x|, nonce, sealed)
  {
    var v, pos := AuthValue(nonce, sealed), |x|;
    var b := x + Field(AUTHENTICATOR, v);
    assert AUTHENTICATOR < 0x1_0000;
    hide AuthValue, Field, U16, U16At;
    FieldRead(x, AUTHENTICATOR, v, []);
    assert b + [] == b;
    AuthValueParts(b, pos, nonce, sealed);
    U16RoundTrip(|nonce|, b, pos + 4);
    U16RoundTrip(|sealed|, b, pos + 6);
  }

  // What decoding makes of an encoded packet.
  ghost function Received(ntp: Octets, p: Packet, a: Aead): Fields {
    var x := Covered(ntp, p);
    Fields(Some(Padded(p.id)), AllPadded(p.cookies + p.placeholders), 0,
           Some(Authenticator(p.nonce, a.seal(p.key, p.nonce, p.text, x), |x|)))
  }

  ghost predicate Fits(ntp: Octets, p: Packet, a: Aead) {
    && |ntp| == NTP_PACKET_LEN && |p.id| >= 32 && |p.nonce| == NONCE_LEN
    && |Encoded(ntp, p, a)| <= MAX_PACKET_LEN
  }

  lemma DecodeAll(b: Octets, id: Octets, cs: seq<Octets>, pos: nat, nonce: Octets, sealed: Octets)
    requires HasField(b, NTP_PACKET_LEN, UNIQUE_IDENTIFIER, id)
    requires HasCookies(b, NTP_PACKET_LEN + 4 + |id|, cs) && pos == NTP_PACKET_LEN + 4 + |id| + Size(cs)
    requires HasAuthenticator(b, pos, nonce, sealed) && pos + 28 <= |b|
    ensures DecodedFrom(b, NTP_PACKET_LEN, NO_FIELDS)
         == Decoded(Fields(Some(id), cs, 0, Some(Authenticator(nonce, sealed, pos))))
  {
    hide DecodedFrom, HasField, HasCookies, HasAuthenticator;
    DecodeID(b, NTP_PACKET_LEN, id, NO_FIELDS);
    DecodeCookies(b, NTP_PACKET_LEN + 4 + |id|, cs, NO_FIELDS.(id := Some(id)));
    assert [] + cs == cs;
    DecodeAuthenticator(b, pos, nonce, sealed, Fields(Some(id), cs, 0, None));
  }

  // The order of the fields.
  lemma EncodedIs(ntp: Octets, p: Packet, a: Aead)
    ensures var x, cs := Covered(ntp, p), p.cookies + p.placeholders;
      && x == ntp + Field(UNIQUE_IDENTIFIER, Padded(p.id)) + CookieFields(cs)
      && |x| == |ntp| + 4 + |Padded(p.id)| + Size(AllPadded(cs))
  {
    CookieFieldsSum(p.cookies, p.placeholders);
    CookieFieldsSize(p.cookies + p.placeholders);
    hide CookieFields, Padded, AllPadded, Field;
  }

  lemma FieldsRead(ntp: Octets, id: Octets, cs: seq<Octets>, v: Octets)
    requires |ntp| == NTP_PACKET_LEN && |id| < 0xfff0 && |CookieFields(cs)| < 0x1_0000
    ensures var b := ntp + Field(UNIQUE_IDENTIFIER, id) + CookieFields(cs) + v;
      && HasField(b, NTP_PACKET_LEN, UNIQUE_IDENTIFIER, id)
      && HasCookies(b, NTP_PACKET_LEN + 4 + |id|, AllPadded(cs))
  {
    var f, c := Field(UNIQUE_IDENTIFIER, id), CookieFields(cs);
    assert UNIQUE_IDENTIFIER < 0x1_0000;
    hide Field, CookieFields, AllPadded, HasField, HasCookies;
    FieldRead(ntp, UNIQUE_IDENTIFIER, id, c + v);
    CookiesRead(ntp + f, cs, v);
    Assoc(ntp + f, c, v);
  }

  // Decoding undoes encoding, except that values come back padded and placeholders as
  // cookies; the position of the authenticator is where the covered part ends.
  lemma RoundTrip(ntp: Octets, p: Packet, a: Aead)
    requires Fits(ntp, p, a) && IsIdeal(a)
    ensures DecodedFrom(Encoded(ntp, p, a), NTP_PACKET_LEN, NO_FIELDS) == Decoded(Received(ntp, p, a))
    ensures Encoded(ntp, p, a)[..Received(ntp, p, a).auth.value.pos] == Covered(ntp, p)
  {
    var x, id, cs := Covered(ntp, p), Padded(p.id), p.cookies + p.placeholders;
    var sealed := a.seal(p.key, p.nonce, p.text, x);
    var v := AuthValue(p.nonce, sealed);
    SealSize(a, p.key, p.nonce, p.text, x);
    EncodedIs(ntp, p, a);
    assert |x| + 4 + |v| <= MAX_PACKET_LEN;
    assert Encoded(ntp, p, a)[..|x|] == x;
    hide IsIdeal, DecodedFrom, HasField, HasCookies, HasAuthenticator, Covered, Padded, AllPadded, Field;
    hide CookieFields, AuthValue;
    FieldsRead(ntp, id, cs, Field(AUTHENTICATOR, v));
    AuthenticatorRead(x, p.nonce, sealed);
    DecodeAll(Encoded(ntp, p, a), id, AllPadded(cs), |x|, p.nonce, sealed);
  }

  /* ---- Sealed cookies ---- */

  // Cookies that are sealed as they are: without padding.
  ghost predicate Aligned(cs: seq<Octets>) {
    forall i :: 0 <= i < |cs| ==> |cs[i]| % 4 == 0
  }

  lemma AlignedIsPadded(cs: seq<Octets>)
    requires Aligned(cs)
    ensures AllPadded(cs) == cs
  {
    forall i | 0 <= i < |cs| ensures Padded(cs[i]) == cs[i] {
    }
  }

  lemma OpenCookie(text: Octets, pos: nat, c: Octets, ds: seq<Octets>)
    requires HasField(text, pos, COOKIE, c) && pos + 28 <= |text|
    ensures CookiesFrom(text, pos, ds) == CookiesFrom(text, pos + 4 + |c|, ds + [c])
  {
    ValueRead(text, pos, COOKIE, c);
  }

  lemma {:induction false} OpenCookies(text: Octets, pos: nat, cs: seq<Octets>, ds: seq<Octets>)
    requires HasCookies(text, pos, cs) && |text| == pos + Size(cs)
    requires forall i :: 0 <= i < |cs| ==> |cs[i]| >= 24
    ensures CookiesFrom(text, pos, ds) == Cookies(ds + cs)
    decreases |cs|
  {
    if cs == [] {
      assert ds + cs == ds;
    } else {
      hide CookiesFrom, HasField;
      OpenCookie(text, pos, cs[0], ds);
      OpenCookies(text, pos + 4 + |cs[0]|, cs[1..], ds + [cs[0]]);
      assert ds + cs == ds + [cs[0]] + cs[1..];
    }
  }

  // Too short a last cookie is not found.
  lemma {:induction false} OpenTooFew(text: Octets, pos: nat, cs: seq<Octets>, ds: seq<Octets>)
    requires HasCookies(text, pos, cs) && |text| == pos + Size(cs)
    requires cs != [] && |cs[|cs| - 1]| < 24
    ensures var r := CookiesFrom(text, pos, ds);
      r.Cookies? && |r.cookies| < |ds| + |cs|
    decreases |cs|
  {
    if |text| - pos >= 28 {
      hide CookiesFrom, HasField;
      OpenCookie(text, pos, cs[0], ds);
      assert cs[1..] != [];
      OpenTooFew(text, pos + 4 + |cs[0]|, cs[1..], ds + [cs[0]]);
    }
  }

  // Sealed cookies of one length, a multiple of four, are recovered exactly if they have
  // 24 bytes or more.
  lemma SealedCookiesReturn(cs: seq<Octets>, n: nat)
    requires cs != [] && Aligned(cs) && |CookieFields(cs)| < 0x1_0000
    requires forall i :: 0 <= i < |cs| ==> |cs[i]| == n
    ensures CookiesFrom(CookieFields(cs), 0, []) == Cookies(cs) <==> n >= 24
  {
    var text := CookieFields(cs);
    assert [] + text + [] == text;
    AlignedIsPadded(cs);
    CookiesRead([], cs, []);
    CookieFieldsSize(cs);
    hide CookiesFrom, CookieFields, HasCookies;
    if n >= 24 {
      OpenCookies(text, 0, cs, []);
      assert [] + cs == cs;
    } else {
      OpenTooFew(text, 0, cs, []);
    }
  }
}
