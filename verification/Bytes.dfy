/** Byte strings, as encoding/binary writes them, and an ideal authenticated encryption. */
module Bytes {

  type Byte = x: int | 0 <= x < 256

  type Octets = seq<Byte>

  // The two bytes of a uint16, the more significant one first.
  function U16(x: nat): (b: Octets)
    ensures |b| == 2
    ensures var hi: int, lo: int := b[0], b[1];
      hi * 256 + lo == x % 0x1_0000
  {
    assert x / 256 % 256 * 256 + x % 256 == x % 0x1_0000;
    [x / 256 % 256, x % 256]
  }

  function U16At(b: Octets, pos: nat): (x: nat)
    requires pos + 2 <= |b|
    ensures x < 0x1_0000
  {
    var hi: int, lo: int := b[pos], b[pos + 1];
    hi * 256 + lo
  }

  lemma U16RoundTrip(x: nat, b: Octets, pos: nat)
    requires pos + 2 <= |b| && b[pos..pos + 2] == U16(x)
    ensures U16At(b, pos) == x % 0x1_0000
  {
    assert b[pos..pos + 2][0] == b[pos] && b[pos..pos + 2][1] == b[pos + 1];
  }

  function Zeros(n: nat): (b: Octets)
    ensures |b| == n && forall k :: 0 <= k < n ==> b[k] == 0
  {
    seq(n, _ => 0)
  }

  // The number of bytes that pad n bytes to a multiple of four.
  function Padding(n: nat): (r: nat)
    ensures r < 4 && (n + r) % 4 == 0
  {
    (n + 3) / 4 * 4 - n
  }

  function Padded(v: Octets): (b: Octets)
    ensures |b| % 4 == 0 && |v| <= |b| < |v| + 4 && b[..|v|] == v
    ensures forall k :: |v| <= k < |b| ==> b[k] == 0
  {
    v + Zeros(Padding(|v|))
  }

  // As much of b as fits into n bytes.
  function Clip(b: Octets, n: nat): (r: Octets)
    ensures |r| <= |b| && |r| <= n && r == b[..|r|]
    ensures if |b| <= n then r == b else |r| == n
  {
    if |b| <= n then b else b[..n]
  }

  lemma SubSlice(b: Octets, lo: nat, hi: nat, i: nat, j: nat)
    requires lo <= hi <= |b| && i <= j <= hi - lo
    ensures b[lo..hi][i..j] == b[lo + i..lo + j]
  {
    var s := b[lo..hi];
    assert forall k :: i <= k < j ==> s[k] == b[lo + k];
    assert forall k :: 0 <= k < j - i ==> s[i..j][k] == s[i + k] == b[lo + i..lo + j][k];
  }

  // Three parts of b, one after the other.
  lemma ThreeParts(b: Octets, pos: nat, h: Octets, n: Octets, v: Octets)
    requires pos + |h| + |n| + |v| <= |b| && b[pos..pos + |h| + |n| + |v|] == h + n + v
    ensures b[pos..pos + |h|] == h && b[pos + |h|..pos + |h| + |n|] == n
    ensures b[pos + |h| + |n|..pos + |h| + |n| + |v|] == v
  {
    var end, s := pos + |h| + |n| + |v|, h + n + v;
    assert s[0..|h|] == h && s[|h|..|h| + |n|] == n && s[|h| + |n|..|s|] == v;
    SubSlice(b, pos, end, 0, |h|);
    SubSlice(b, pos, end, |h|, |h| + |n|);
    SubSlice(b, pos, end, |h| + |n|, |s|);
  }

  lemma Assoc(a: Octets, b: Octets, c: Octets)
    ensures a + (b + c) == a + b + c
  {
  }

  lemma Regroup(x: Octets, f: Octets, g: Octets, rest: Octets)
    ensures x + (f + g) + rest == x + f + g + rest
    ensures (x + f + g + rest)[|x|..|x| + |f|] == f
  {
    assert x + (f + g) + rest == x + f + g + rest;
  }

  /* ---- Buffers ---- */

  // Of x, as much as fits into limit bytes is written before pos.
  ghost predicate Written(b: Octets, limit: nat, pos: nat, x: Octets) {
    pos <= limit <= |b| && b[..pos] == Clip(x, limit)
  }

  // From pos on, b is still as b0.
  ghost predicate Unwritten(b: Octets, b0: Octets, pos: nat) {
    |b| == |b0| && pos <= |b| && b[pos..] == b0[pos..]
  }

  lemma UnwrittenFurther(b: Octets, b': Octets, b'': Octets, pos: nat, pos': nat)
    requires Unwritten(b', b, pos) && Unwritten(b'', b', pos') && pos <= pos'
    ensures Unwritten(b'', b, pos')
  {
    assert b'[pos'..] == b'[pos..][pos' - pos..] == b[pos..][pos' - pos..] == b[pos'..];
  }

  // copy(buf[pos:], src)
  method Put(buf: array<Byte>, limit: nat, pos: nat, src: Octets, ghost x: Octets) returns (pos': nat)
    requires Written(buf[..], limit, pos, x)
    modifies buf
    ensures Written(buf[..], limit, pos', x + src)
    ensures pos <= pos' && Unwritten(buf[..], old(buf[..]), pos')
  {
    var n := if |src| < limit - pos then |src| else limit - pos;
    forall k | 0 <= k < n {
      buf[pos + k] := src[k];
    }
    pos' := pos + n;
    assert buf[..pos'] == old(buf[..])[..pos] + src[..n];
  }

  /* ---- Encryption ---- */

  // Authenticated encryption: key, nonce, text and additional data. Opening what was
  // sealed, with the same key, nonce and additional data, gives the text back.
  datatype Aead = Aead(seal: (Octets, Octets, Octets, Octets) -> Octets,
                       open: (Octets, Octets, Octets, Octets) -> Opened)

  datatype Opened = Text(text: Octets) | Forged

  ghost predicate IsIdeal(a: Aead) {
    forall key, nonce, text, data ::
      && |a.seal(key, nonce, text, data)| == |text| + 16
      && a.open(key, nonce, a.seal(key, nonce, text, data), data) == Text(text)
  }

  lemma SealSize(a: Aead, key: Octets, nonce: Octets, text: Octets, data: Octets)
    requires IsIdeal(a)
    ensures |a.seal(key, nonce, text, data)| == |text| + 16
  {
  }
}
