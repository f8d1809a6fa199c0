/** The keys that the NTP and the NTS-KE server share (net/ntske/provider.go). */
module KeyProvider {
  import opened Bytes
  import Cookies
  import opened GoInt
  import opened Options
  import opened Sorting

  const HOUR := 3600 * 1_000_000_000
  const KEY_VALIDITY := 72 * HOUR
  const KEY_RENEWAL_INTERVAL := 24 * HOUR

  datatype Key = Key(id: int, value: Octets, notBefore: int, notAfter: int)

  predicate IsValidAt(k: Key, t: int) {
    !(t < k.notBefore || t > k.notAfter)
  }

  // The state of a provider.
  datatype State = State(keys: map<int, Key>, currentID: int, generatedAt: int)

  ghost predicate IsNewKey(k: Key, id: int, now: int) {
    k.id == id && |k.value| == 32 && k.notBefore == now && k.notAfter == now + KEY_VALIDITY
  }

  // generateNext at time now: keys that are not valid are removed, and a new one is added
  // and made the current one.
  ghost predicate Generated(s: State, s': State, now: int) {
    && s'.currentID == s.currentID + 1 && s'.generatedAt == now
    && s'.currentID in s'.keys && IsNewKey(s'.keys[s'.currentID], s'.currentID, now)
    && (forall id :: id in s'.keys && id != s'.currentID ==>
          id in s.keys && s'.keys[id] == s.keys[id] && IsValidAt(s.keys[id], now))
    && (forall id :: id in s.keys && id != s'.currentID && IsValidAt(s.keys[id], now) ==> id in s'.keys)
  }

  // Current at time now; a new key is generated at a later reading of the clock.
  ghost predicate CurrentStep(s: State, s': State, now: int, later: int) {
    if s.currentID in s.keys && IsValidAt(s.keys[s.currentID], now) && !(s.generatedAt + KEY_RENEWAL_INTERVAL < now)
    then s' == s
    else Generated(s, s', later)
  }

  class Provider {
    var keys: map<int, Key>
    var currentID: int
    var generatedAt: int

    ghost function View(): State
      reads this
    {
      State(keys, currentID, generatedAt)
    }

    // NewProvider
    constructor (now: int, value: Octets)
      requires |value| == 32
      ensures Generated(State(map[], 0, 0), View(), now)
    {
      keys, currentID, generatedAt := map[], 0, 0;
      new;
      GenerateNext(now, value);
    }

    method GenerateNext(now: int, value: Octets)
      requires currentID < MAX_INT64 && |value| == 32
      modifies this
      ensures Generated(old(View()), View(), now)
      ensures currentID == old(currentID) + 1 && generatedAt == now
      ensures currentID in keys && keys[currentID] == Key(currentID, value, now, now + 72 * HOUR)
      ensures forall id :: id != currentID ==>
                (id in keys <==> id in old(keys) && old(keys)[id].notBefore <= now <= old(keys)[id].notAfter)
      ensures forall id :: id != currentID && id in keys ==> keys[id] == old(keys)[id]
    {
      keys := map id | id in keys && IsValidAt(keys[id], now) :: keys[id];
      currentID := currentID + 1;
      generatedAt := now;
      keys := keys[currentID := Key(currentID, value, generatedAt, generatedAt + KEY_VALIDITY)];
    }

    method Get(id: int, now: int) returns (key: Option<Key>)
      ensures key == Lookup(View(), id, now)
      ensures key.Some? <==> id in keys && keys[id].notBefore <= now <= keys[id].notAfter
      ensures key.Some? ==> key.value == keys[id]
    {
      if id !in keys {
        return None;
      }
      if !IsValidAt(keys[id], now) {
        return None;
      }
      key := Some(keys[id]);
    }

    // The random value is used if a new key is needed.
    method Current(now: int, later: int, value: Octets) returns (key: Key)
      requires currentID < MAX_INT64 && |value| == 32
      modifies this
      ensures CurrentStep(old(View()), View(), now, later)
      ensures currentID in keys && key == keys[currentID]
      ensures var id := old(currentID);
        if id in old(keys) && old(keys)[id].notBefore <= now <= old(keys)[id].notAfter
           && now <= old(generatedAt) + 24 * HOUR
        then View() == old(View())
        else currentID == id + 1 && generatedAt == later && key == Key(currentID, value, later, later + 72 * HOUR)
    {
      if currentID !in keys || !IsValidAt(keys[currentID], now) || generatedAt + KEY_RENEWAL_INTERVAL < now {
        GenerateNext(later, value);
      }
      key := keys[currentID];
    }
  }

  ghost function Lookup(s: State, id: int, now: int): Option<Key> {
    if id in s.keys && IsValidAt(s.keys[id], now) then Some(s.keys[id]) else None
  }

  /* ---- What every call keeps ---- */

  // At time now: the keys have consecutive IDs up to the current one and are more than a
  // renewal interval apart, and all were valid when the last one was generated.
  ghost predicate Inv(s: State, now: int) {
    && s.currentID in s.keys && s.keys[s.currentID].notBefore == s.generatedAt <= now
    && (forall id :: id in s.keys ==>
          && id <= s.currentID && s.keys[id].id == id
          && s.keys[id].notBefore <= s.generatedAt <= s.keys[id].notAfter == s.keys[id].notBefore + KEY_VALIDITY)
    && (forall id :: id in s.keys && id < s.currentID ==>
          id + 1 in s.keys && s.keys[id].notBefore + KEY_RENEWAL_INTERVAL < s.keys[id + 1].notBefore)
  }

  lemma FirstInv(s: State, now: int)
    requires Generated(State(map[], 0, 0), s, now)
    ensures Inv(s, now)
  {
  }

  lemma CurrentKeepsInv(s: State, s': State, t: int, now: int, later: int)
    requires Inv(s, t) && t <= now <= later && CurrentStep(s, s', now, later)
    ensures Inv(s', later)
  {
    if s' != s {
      var c := s.currentID;
      assert s.keys[c].notBefore + KEY_RENEWAL_INTERVAL < now;
      forall id | id in s'.keys && id < s'.currentID
        ensures id + 1 in s'.keys && s'.keys[id].notBefore + KEY_RENEWAL_INTERVAL < s'.keys[id + 1].notBefore
      {
        assert id in s.keys && s'.keys[id] == s.keys[id];
        if id < c {
          assert IsValidAt(s.keys[id + 1], later);
        }
      }
    }
  }

  // No more than the last three keys are held.
  lemma AtMostThreeKeys(s: State, now: int)
    requires Inv(s, now)
    ensures s.keys.Keys <= {s.currentID, s.currentID - 1, s.currentID - 2}
    ensures |s.keys| <= 3
  {
    var c := s.currentID;
    forall id | id in s.keys ensures id in {c, c - 1, c - 2} {
      if id <= c - 3 {
        FarApart(s, now, id, 3);
      }
    }
    var three := {c, c - 1, c - 2};
    assert |three| <= 3;
    assert s.keys.Keys <= three;
    SubsetSize(s.keys.Keys, three);
  }

  lemma {:induction false} FarApart(s: State, now: int, id: int, n: nat)
    requires Inv(s, now) && id in s.keys && id + n <= s.currentID
    ensures id + n in s.keys && s.keys[id].notBefore + n * KEY_RENEWAL_INTERVAL <= s.keys[id + n].notBefore
    ensures n > 0 ==> s.keys[id].notBefore + n * KEY_RENEWAL_INTERVAL < s.keys[id + n].notBefore
  {
    if n > 0 {
      FarApart(s, now, id, n - 1);
    }
  }

  /* ---- Runs ---- */

  // A provider as created, or after another call of Current, with the two readings of the
  // clock in that call.
  datatype Run = Start(s: State, later: int) | Call(before: Run, s: State, now: int, later: int)

  ghost predicate IsHistory(r: Run) {
    if r.Start? then Generated(State(map[], 0, 0), r.s, r.later)
    else IsHistory(r.before) && CurrentStep(r.before.s, r.s, r.now, r.later)
  }

  // The clock does not go backward.
  ghost predicate InOrder(r: Run) {
    r.Call? ==> InOrder(r.before) && r.before.later <= r.now <= r.later
  }

  ghost predicate IsRun(r: Run) {
    IsHistory(r) && InOrder(r)
  }

  // More calls after r give r'.
  ghost predicate Extends(r': Run, r: Run) {
    r' == r || (r'.Call? && Extends(r'.before, r))
  }

  lemma {:induction false} RunKeepsInv(r: Run)
    requires IsRun(r)
    ensures Inv(r.s, r.later)
  {
    if r.Start? {
      FirstInv(r.s, r.later);
    } else {
      RunKeepsInv(r.before);
      CurrentKeepsInv(r.before.s, r.s, r.before.later, r.now, r.later);
    }
  }

  lemma {:induction false} ExtendsMore(r: Run, r': Run, r'': Run)
    requires Extends(r', r) && Extends(r'', r')
    ensures Extends(r'', r)
  {
    if r'' != r' {
      ExtendsMore(r, r', r''.before);
    }
  }

  // An ID, once given, is never given to another key.
  lemma {:induction false} IDsAreNotReused(r: Run, r': Run, id: int)
    requires IsHistory(r') && Extends(r', r) && id <= r.s.currentID
    ensures r.s.currentID <= r'.s.currentID
    ensures id in r'.s.keys ==> id in r.s.keys && r'.s.keys[id] == r.s.keys[id]
  {
    if r' != r {
      IDsAreNotReused(r, r'.before, id);
    }
  }

  // The key that a call of Current returns, or that is generated first.
  ghost function CurrentKey(r: Run): Key
    requires IsHistory(r)
  {
    r.s.keys[r.s.currentID]
  }

  lemma {:induction false} CurrentHasID(r: Run)
    requires IsHistory(r)
    ensures CurrentKey(r).id == r.s.currentID
  {
    if r.Call? {
      CurrentHasID(r.before);
    }
  }

  // What is found later by the ID of a key that was current is that key.
  lemma FoundIsSame(r: Run, r': Run, t: int)
    requires IsHistory(r) && IsHistory(r') && Extends(r', r)
    ensures var key := CurrentKey(r);
      Lookup(r'.s, key.id, t).Some? ==> Lookup(r'.s, key.id, t) == Some(key)
  {
    CurrentHasID(r);
    IDsAreNotReused(r, r', r.s.currentID);
  }

  ghost predicate Holds(s: State, key: Key) {
    key.id in s.keys && s.keys[key.id] == key
  }

  lemma {:induction false} KeyIsKept(r: Run, r': Run, key: Key)
    requires IsRun(r') && Extends(r', r) && Holds(r.s, key)
    requires key.notBefore <= r.later && r'.later <= key.notAfter
    ensures Holds(r'.s, key) && key.notBefore <= r'.later
  {
    if r' != r {
      KeyIsKept(r, r'.before, key);
      RunKeepsInv(r'.before);
      assert IsValidAt(key, r'.later);
    }
  }

  // The key that the last call of Current returned.
  ghost predicate IsReturned(r: Run, key: Key)
    requires IsHistory(r)
  {
    r.Call? && key == CurrentKey(r)
  }

  lemma ReturnedIsFresh(r: Run, key: Key)
    requires IsRun(r) && IsReturned(r, key)
    ensures Holds(r.s, key) && key.id == r.s.currentID
    ensures key.notBefore <= r.later && r.now + 48 * HOUR <= key.notAfter
  {
    RunKeepsInv(r.before);
    RunKeepsInv(r);
  }

  // A key that Current returned at some time is found at any time within the next 48 hours,
  // whatever calls come between.
  lemma KeyIsFound(r: Run, key: Key, r': Run, t: int)
    requires IsRun(r) && IsReturned(r, key) && IsRun(r') && Extends(r', r)
    requires r'.later <= t <= r.now + 48 * HOUR
    ensures Lookup(r'.s, key.id, t) == Some(key)
  {
    ReturnedIsFresh(r, key);
    KeyIsKept(r, r', key);
  }

  // A key is not found before or 72 hours after it was generated, by any ID and in any run.
  lemma ExpiredIsNotFound(r: Run, id: int, t: int)
    requires IsRun(r)
    ensures var found := Lookup(r.s, id, t);
      found.Some? ==> found.value.notBefore <= t <= found.value.notBefore + 72 * HOUR
  {
    RunKeepsInv(r);
  }

  lemma FoundByItsID(s: State, now: int, key: Key, t: int, id: int)
    requires Inv(s, now) && Lookup(s, key.id, t) == Some(key)
    ensures Lookup(s, id, t) == Some(key) <==> id == key.id
  {
  }

  // So a cookie that is encrypted under that key decodes, its key is found by the number in
  // it, and it decrypts to the keys that were encrypted, as long as key IDs have 16 bits.
  lemma CookieOpens(r: Run, key: Key, r': Run, t: int, c: Cookies.Cookie, nonce: Octets, a: Aead)
    requires IsRun(r) && IsReturned(r, key) && IsRun(r') && Extends(r', r)
    requires r'.later <= t <= r.now + 48 * HOUR
    requires Cookies.IsServerCookie(c) && |nonce| == Cookies.NONCE_LEN && IsIdeal(a)
    ensures var e := Cookies.Encrypted(c, key.value, key.id, nonce, a);
      && Cookies.Opens(Cookies.Encoded(Cookies.ENCRYPTED_COOKIE, e), e, key.value, c, a)
      && (Lookup(r'.s, e.number, t) == Some(key) <==> Cookies.IsUint16(key.id))
  {
    hide IsRun, IsReturned, Extends, Inv, Lookup, Cookies.Opens, Cookies.Encoded, Cookies.IsServerCookie, IsIdeal;
    KeyIsFound(r, key, r', t);
    RunKeepsInv(r');
    FoundByItsID(r'.s, r'.later, key, t, key.id % 0x1_0000);
    Cookies.EncryptedRoundTrip(c, key.value, key.id, nonce, a);
  }
}
