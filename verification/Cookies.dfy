/** Plain and encrypted NTS cookies (net/ntske/cookies.go). Both have the same layout: a
    number and two byte strings, each with its type and its length. */
module Cookies {
  import opened Bytes
  import opened Options

  datatype Types = Types(number: nat, first: nat, second: nat)

  // Algorithm, server-to-client key, client-to-server key.
  const SERVER_COOKIE := Types(0x101, 0x201, 0x301)

  // Key ID, nonce, ciphertext.
  const ENCRYPTED_COOKIE := Types(0x401, 0x501, 0x601)

  datatype Cookie = Cookie(number: nat, first: Octets, second: Octets)

  ghost predicate IsUint16(x: int) {
    0 <= x < 0x1_0000
  }

  ghost predicate AreTypes(ts: Types) {
    && IsUint16(ts.number) && IsUint16(ts.first) && IsUint16(ts.second)
    && ts.number != ts.first && ts.first != ts.second && ts.second != ts.number
  }

  ghost function Chunk(t: nat, v: Octets): (b: Octets)
    ensures |b| == 4 + |v|
  {
    U16(t) + U16(|v|) + v
  }

  ghost function Encoded(ts: Types, c: Cookie): Octets {
    Chunk(ts.number, U16(c.number)) + Chunk(ts.first, c.first) + Chunk(ts.second, c.second)
  }

  method PutChunk(b: array<Byte>, pos: nat, t: nat, v: Octets, ghost x: Octets) returns (pos': nat)
    requires Written(b[..], b.Length, pos, x)
    modifies b
    ensures Written(b[..], b.Length, pos', x + Chunk(t, v))
  {
    hide Written;
    pos' := Put(b, b.Length, pos, U16(t), x);
    pos' := Put(b, b.Length, pos', U16(|v|), x + U16(t));
    pos' := Put(b, b.Length, pos', v, x + U16(t) + U16(|v|));
    assert x + U16(t) + U16(|v|) + v == x + Chunk(t, v);
  }

  method Encode(ts: Types, c: Cookie) returns (b: array<Byte>)
    ensures b[..] == Encoded(ts, c) && fresh(b)
  {
    b := new Byte[3 * 4 + 2 + |c.first| + |c.second|](_ => 0);
    ghost var x := [];
    assert Written(b[..], b.Length, 0, x);
    var pos := PutChunk(b, 0, ts.number, U16(c.number), x);
    assert [] + Chunk(ts.number, U16(c.number)) == Chunk(ts.number, U16(c.number));
    x := Chunk(ts.number, U16(c.number));
    pos := PutChunk(b, pos, ts.first, c.first, x);
    x := x + Chunk(ts.first, c.first);
    pos := PutChunk(b, pos, ts.second, c.second, x);
    assert pos == b.Length;
  }

  /* ---- Decoding ---- */

  datatype Decoding = Decoded(cookie: Cookie) | UnexpectedData | Panic

  // What has been found so far.
  datatype Found = Found(number: Option<nat>, first: Option<Octets>, second: Option<Octets>)

  const NOTHING := Found(None, None, None)

  function Finished(f: Found): Decoding {
    if f.number.Some? && f.first.Some? && f.second.Some?
    then Decoded(Cookie(f.number.value, f.first.value, f.second.value))
    else UnexpectedData
  }

  // One chunk; None if it is cut off where its value is read.
  function Parsed(ts: Types, b: Octets, pos: nat, f: Found): Option<Found>
    requires pos + 4 <= |b|
  {
    var t, n := U16At(b, pos), U16At(b, pos + 2);
    if t == ts.number then if pos + 6 <= |b| then Some(f.(number := Some(U16At(b, pos + 4)))) else None
    else if t == ts.first then if pos + 4 + n <= |b| then Some(f.(first := Some(b[pos + 4..pos + 4 + n]))) else None
    else if t == ts.second then if pos + 4 + n <= |b| then Some(f.(second := Some(b[pos + 4..pos + 4 + n]))) else None
    else Some(f)
  }

  function DecodedFrom(ts: Types, b: Octets, pos: nat, f: Found): Decoding
    decreases |b| - pos
  {
    if pos == |b| then Finished(f)
    else if pos > |b| then UnexpectedData
    else if pos + 4 > |b| then Panic
    else
      var g := Parsed(ts, b, pos, f);
      if g.None? then Panic else DecodedFrom(ts, b, pos + 4 + U16At(b, pos + 2), g.value)
  }

  method Decode(ts: Types, b: Octets) returns (r: Decoding)
    ensures r == DecodedFrom(ts, b, 0, NOTHING)
  {
    hide Parsed;
    var pos, f := 0, NOTHING;
    while pos < |b|
      invariant DecodedFrom(ts, b, pos, f) == DecodedFrom(ts, b, 0, NOTHING)
      decreases |b| - pos
    {
      if pos + 4 > |b| {
        return Panic;
      }
      var g := Parsed(ts, b, pos, f);
      if g.None? {
        return Panic;
      }
      pos, f := pos + 4 + U16At(b, pos + 2), g.value;
    }
    r := if pos != |b| then UnexpectedData else Finished(f);
  }

  // At pos, b is cut off: within a header, or within a value that is read.
  ghost predicate IsCut(ts: Types, b: Octets, pos: nat) {
    pos < |b| &&
    if pos + 4 > |b| then true
    else
      var t, n := U16At(b, pos), U16At(b, pos + 2);
      if t == ts.number then pos + 6 > |b|
      else (t == ts.first || t == ts.second) && pos + 4 + n > |b|
  }

  // From pos on, chunk by chunk, b is cut off somewhere.
  ghost predicate MeetsCut(ts: Types, b: Octets, pos: nat)
    decreases |b| - pos
  {
    IsCut(ts, b, pos) || (pos + 4 <= |b| && MeetsCut(ts, b, pos + 4 + U16At(b, pos + 2)))
  }

  // Decoding panics exactly on such bytes.
  lemma {:induction false} PanicsOnCut(ts: Types, b: Octets, pos: nat, f: Found)
    ensures DecodedFrom(ts, b, pos, f) == Panic <==> MeetsCut(ts, b, pos)
    decreases |b| - pos
  {
    if pos + 4 <= |b| {
      var g := Parsed(ts, b, pos, f);
      assert g.None? <==> IsCut(ts, b, pos);
      if g.Some? {
        PanicsOnCut(ts, b, pos + 4 + U16At(b, pos + 2), g.value);
      }
    }
  }

  /* ---- Round trips ---- */

  // At pos, b has a chunk of type t with value v.
  ghost predicate HasChunk(b: Octets, pos: nat, t: nat, v: Octets) {
    && pos + 4 + |v| <= |b|
    && U16At(b, pos) == t && U16At(b, pos + 2) == |v|
    && b[pos + 4..pos + 4 + |v|] == v
  }

  lemma ChunkRead(x: Octets, t: nat, v: Octets, rest: Octets)
    requires IsUint16(t) && IsUint16(|v|)
    ensures HasChunk(x + Chunk(t, v) + rest, |x|, t, v)
  {
    var b, pos := x + Chunk(t, v) + rest, |x|;
    var h, n, c := U16(t), U16(|v|), Chunk(t, v);
    assert c == h + n + v;
    hide U16, U16At, Chunk;
    Regroup(x, c, [], rest);
    assert c + [] == c;
    ThreeParts(b, pos, h, n, v);
    U16RoundTrip(t, b, pos);
    U16RoundTrip(|v|, b, pos + 2);
  }

  lemma DecodeNumber(ts: Types, b: Octets, pos: nat, v: nat, f: Found)
    requires AreTypes(ts) && IsUint16(v) && HasChunk(b, pos, ts.number, U16(v))
    ensures DecodedFrom(ts, b, pos, f) == DecodedFrom(ts, b, pos + 6, f.(number := Some(v)))
  {
    U16RoundTrip(v, b, pos + 4);
    assert Parsed(ts, b, pos, f) == Some(f.(number := Some(v)));
  }

  lemma DecodeFirst(ts: Types, b: Octets, pos: nat, v: Octets, f: Found)
    requires AreTypes(ts) && HasChunk(b, pos, ts.first, v)
    ensures DecodedFrom(ts, b, pos, f) == DecodedFrom(ts, b, pos + 4 + |v|, f.(first := Some(v)))
  {
    assert Parsed(ts, b, pos, f) == Some(f.(first := Some(v)));
  }

  lemma DecodeSecond(ts: Types, b: Octets, pos: nat, v: Octets, f: Found)
    requires AreTypes(ts) && HasChunk(b, pos, ts.second, v)
    ensures DecodedFrom(ts, b, pos, f) == DecodedFrom(ts, b, pos + 4 + |v|, f.(second := Some(v)))
  {
    assert Parsed(ts, b, pos, f) == Some(f.(second := Some(v)));
  }

  /* ---- Decoding any chunks ---- */

  datatype Piece = Piece(t: nat, v: Octets)

  // From pos on, b has the chunks cs.
  ghost predicate HasChunks(b: Octets, pos: nat, cs: seq<Piece>)
    decreases |cs|
  {
    cs != [] ==> HasChunk(b, pos, cs[0].t, cs[0].v) && HasChunks(b, pos + 4 + |cs[0].v|, cs[1..])
  }

  ghost function ChunksSize(cs: seq<Piece>): nat {
    if cs == [] then 0 else 4 + |cs[0].v| + ChunksSize(cs[1..])
  }

  // The values of all chunks of type t, in order.
  ghost function Values(cs: seq<Piece>, t: nat): seq<Octets> {
    if cs == [] then [] else (if cs[0].t == t then [cs[0].v] else []) + Values(cs[1..], t)
  }

  ghost predicate NumbersFit(ts: Types, cs: seq<Piece>) {
    forall i :: 0 <= i < |cs| && cs[i].t == ts.number ==> |cs[i].v| >= 2
  }

  ghost function LastOr<T>(s: seq<T>, x: Option<T>): Option<T> {
    if s == [] then x else Some(s[|s| - 1])
  }

  // What decoding makes of the chunks cs after those in f: the last one of each type counts.
  ghost predicate IsAfter(ts: Types, g: Found, f: Found, cs: seq<Piece>) {
    var ns := Values(cs, ts.number);
    && (if ns == [] then g.number == f.number
        else |ns[|ns| - 1]| >= 2 && g.number == Some(U16At(ns[|ns| - 1], 0)))
    && g.first == LastOr(Values(cs, ts.first), f.first)
    && g.second == LastOr(Values(cs, ts.second), f.second)
  }

  lemma DecodeChunk(ts: Types, b: Octets, pos: nat, c: Piece, f: Found) returns (g: Found)
    requires AreTypes(ts) && HasChunk(b, pos, c.t, c.v) && (c.t == ts.number ==> |c.v| >= 2)
    ensures DecodedFrom(ts, b, pos, f) == DecodedFrom(ts, b, pos + 4 + |c.v|, g)
    ensures g.number == if c.t == ts.number then Some(U16At(c.v, 0)) else f.number
    ensures g.first == if c.t == ts.first then Some(c.v) else f.first
    ensures g.second == if c.t == ts.second then Some(c.v) else f.second
  {
    if c.t == ts.number {
      assert b[pos + 4] == c.v[0] && b[pos + 5] == c.v[1];
    }
    g := Parsed(ts, b, pos, f).value;
  }

  lemma {:induction false} DecodeChunks(ts: Types, b: Octets, pos: nat, cs: seq<Piece>, f: Found) returns (g: Found)
    requires AreTypes(ts) && HasChunks(b, pos, cs) && NumbersFit(ts, cs)
    ensures DecodedFrom(ts, b, pos, f) == DecodedFrom(ts, b, pos + ChunksSize(cs), g)
    ensures IsAfter(ts, g, f, cs)
    decreases |cs|
  {
    hide DecodedFrom, HasChunk, U16At, IsAfter, LastOr, Values;
    if cs == [] {
      NoneAfter(ts, f, cs);
      g := f;
    } else {
      var h := DecodeChunk(ts, b, pos, cs[0], f);
      assert NumbersFit(ts, cs[1..]);
      g := DecodeChunks(ts, b, pos + 4 + |cs[0].v|, cs[1..], h);
      AfterOneMore(ts, g, h, f, cs);
    }
  }

  lemma AfterOneMore(ts: Types, g: Found, h: Found, f: Found, cs: seq<Piece>)
    requires cs != [] && IsAfter(ts, g, h, cs[1..]) && NumbersFit(ts, cs)
    requires h.number == if cs[0].t == ts.number then Some(U16At(cs[0].v, 0)) else f.number
    requires h.first == if cs[0].t == ts.first then Some(cs[0].v) else f.first
    requires h.second == if cs[0].t == ts.second then Some(cs[0].v) else f.second
    ensures IsAfter(ts, g, f, cs)
  {
    hide U16At, NumbersFit, Values;
    LastOfMore(cs, ts.number);
    LastOfMore(cs, ts.first);
    LastOfMore(cs, ts.second);
    FirstFits(ts, cs);
  }

  lemma FirstFits(ts: Types, cs: seq<Piece>)
    requires cs != [] && NumbersFit(ts, cs)
    ensures cs[0].t == ts.number ==> |cs[0].v| >= 2
  {
  }

  lemma NoneAfter(ts: Types, f: Found, cs: seq<Piece>)
    requires cs == []
    ensures IsAfter(ts, f, f, cs)
  {
  }

  lemma LastOfMore(cs: seq<Piece>, t: nat)
    requires cs != []
    ensures Values(cs, t) == (if cs[0].t == t then [cs[0].v] else []) + Values(cs[1..], t)
  {
  }

  // Whatever chunks there are, up to the end of the bytes: they decode if there is one of each
  // type, to the last ones; chunks of other types are ignored.
  lemma DecodesChunks(ts: Types, b: Octets, cs: seq<Piece>)
    requires AreTypes(ts) && HasChunks(b, 0, cs) && NumbersFit(ts, cs) && ChunksSize(cs) == |b|
    ensures var ns, xs, ys := Values(cs, ts.number), Values(cs, ts.first), Values(cs, ts.second);
      var r := DecodedFrom(ts, b, 0, NOTHING);
      if ns == [] || xs == [] || ys == [] then r == UnexpectedData
      else
        && |ns[|ns| - 1]| >= 2
        && r == Decoded(Cookie(U16At(ns[|ns| - 1], 0), xs[|xs| - 1], ys[|ys| - 1]))
  {
    hide HasChunks, NumbersFit, Values, U16At;
    var g := DecodeChunks(ts, b, 0, cs, NOTHING);
  }

  // A chunk of another type that claims more bytes than there are is unexpected data.
  lemma OverrunIsUnexpected(ts: Types, b: Octets, pos: nat, f: Found)
    requires pos + 4 <= |b| && pos + 4 + U16At(b, pos + 2) > |b|
    requires U16At(b, pos) != ts.number && U16At(b, pos) != ts.first && U16At(b, pos) != ts.second
    ensures DecodedFrom(ts, b, pos, f) == UnexpectedData
  {
    assert Parsed(ts, b, pos, f) == Some(f);
    hide U16At;
  }

  // Lengths are read from two bytes.
  lemma {:induction false} ValuesAreShort(ts: Types, b: Octets, pos: nat, f: Found)
    requires f.first.Some? ==> IsUint16(|f.first.value|)
    requires f.second.Some? ==> IsUint16(|f.second.value|)
    ensures var r := DecodedFrom(ts, b, pos, f);
      r.Decoded? ==> IsUint16(|r.cookie.first|) && IsUint16(|r.cookie.second|)
    decreases |b| - pos
  {
    if pos + 4 <= |b| {
      var g := Parsed(ts, b, pos, f);
      if g.Some? {
        ValuesAreShort(ts, b, pos + 4 + U16At(b, pos + 2), g.value);
      }
    }
  }

  lemma ChunksRead(ts: Types, c: Cookie)
    requires AreTypes(ts) && IsUint16(|c.first|) && IsUint16(|c.second|)
    ensures var b := Encoded(ts, c);
      && HasChunk(b, 0, ts.number, U16(c.number))
      && HasChunk(b, 6, ts.first, c.first)
      && HasChunk(b, 10 + |c.first|, ts.second, c.second)
  {
    var x, y, z := Chunk(ts.number, U16(c.number)), Chunk(ts.first, c.first), Chunk(ts.second, c.second);
    assert Encoded(ts, c) == x + y + z;
    ChunkRead([], ts.number, U16(c.number), y + z);
    ChunkRead(x, ts.first, c.first, z);
    ChunkRead(x + y, ts.second, c.second, []);
    hide Chunk, HasChunk, Encoded;
    Assoc(x, y, z);
    assert [] + x == x;
    assert x + y + z + [] == x + y + z;
  }

  lemma ShortRoundTrip(ts: Types, c: Cookie)
    requires AreTypes(ts) && IsUint16(c.number) && IsUint16(|c.first|) && IsUint16(|c.second|)
    ensures DecodedFrom(ts, Encoded(ts, c), 0, NOTHING) == Decoded(c)
  {
    ChunksRead(ts, c);
    var b, y := Encoded(ts, c), 10 + |c.first|;
    assert |b| == y + 4 + |c.second|;
    hide Encoded, HasChunk;
    DecodeNumber(ts, b, 0, c.number, NOTHING);
    DecodeFirst(ts, b, 6, c.first, Found(Some(c.number), None, None));
    DecodeSecond(ts, b, y, c.second, Found(Some(c.number), Some(c.first), None));
  }

  // A cookie comes back exactly if its byte strings are no longer than a uint16 can say.
  lemma RoundTrip(ts: Types, c: Cookie)
    requires AreTypes(ts) && IsUint16(c.number)
    ensures DecodedFrom(ts, Encoded(ts, c), 0, NOTHING) == Decoded(c)
       <==> IsUint16(|c.first|) && IsUint16(|c.second|)
  {
    hide DecodedFrom, Encoded, AreTypes;
    if IsUint16(|c.first|) && IsUint16(|c.second|) {
      ShortRoundTrip(ts, c);
    } else {
      ValuesAreShort(ts, Encoded(ts, c), 0, NOTHING);
    }
  }

  /* ---- Encryption ---- */

  const NONCE_LEN := 16

  // EncryptWithNonce, with the nonce that it draws.
  method EncryptWithNonce(c: Cookie, key: Octets, keyID: int, nonce: Octets, a: Aead) returns (e: Cookie)
    ensures e == Encrypted(c, key, keyID, nonce, a)
  {
    var b := Encode(SERVER_COOKIE, c);
    e := Cookie(keyID % 0x1_0000, nonce, a.seal(key, nonce, b[..], []));
  }

  ghost function Encrypted(c: Cookie, key: Octets, keyID: int, nonce: Octets, a: Aead): Cookie {
    Cookie(keyID % 0x1_0000, nonce, a.seal(key, nonce, Encoded(SERVER_COOKIE, c), []))
  }

  // A ciphertext that does not open is an error like unexpected data.
  method Decrypt(e: Cookie, key: Octets, a: Aead) returns (r: Decoding)
    ensures r == Decrypted(e, key, a)
    ensures var o := a.open(key, e.first, e.second, []);
      r == if o.Forged? then UnexpectedData else DecodedFrom(SERVER_COOKIE, o.text, 0, NOTHING)
  {
    var o := a.open(key, e.first, e.second, []);
    if o.Forged? {
      return UnexpectedData;
    }
    r := Decode(SERVER_COOKIE, o.text);
  }

  ghost function Decrypted(e: Cookie, key: Octets, a: Aead): Decoding {
    var o := a.open(key, e.first, e.second, []);
    if o.Forged? then UnexpectedData else DecodedFrom(SERVER_COOKIE, o.text, 0, NOTHING)
  }

  // A cookie for two keys that the server can use.
  ghost predicate IsServerCookie(c: Cookie) {
    IsUint16(c.number) && |c.first| == 32 && |c.second| == 32
  }

  // Decoding b gives e, and decrypting that gives c.
  ghost predicate Opens(b: Octets, e: Cookie, key: Octets, c: Cookie, a: Aead) {
    DecodedFrom(ENCRYPTED_COOKIE, b, 0, NOTHING) == Decoded(e) && Decrypted(e, key, a) == Decoded(c)
  }

  // An encrypted cookie decodes, and decrypts to the cookie it was made of. It has 124
  // bytes.
  lemma EncryptedRoundTrip(c: Cookie, key: Octets, keyID: int, nonce: Octets, a: Aead)
    requires IsServerCookie(c) && |nonce| == NONCE_LEN && IsIdeal(a)
    ensures var e := Encrypted(c, key, keyID, nonce, a);
      && |Encoded(ENCRYPTED_COOKIE, e)| == 124
      && e.number == keyID % 0x1_0000
      && Opens(Encoded(ENCRYPTED_COOKIE, e), e, key, c, a)
  {
    var e := Encrypted(c, key, keyID, nonce, a);
    assert |Encoded(SERVER_COOKIE, c)| == 78;
    assert |e.second| == 94;
    RoundTrip(ENCRYPTED_COOKIE, e);
    RoundTrip(SERVER_COOKIE, c);
  }
}
