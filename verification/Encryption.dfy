/**
 * End-to-end encryption of one payload for many destinations. The cipher, the key agreement, the
 * hash, the signature and the message codec are parameters; what they are trusted for is `Lawful`.
 */
module Encryption {
  import opened Common
  import opened Serialization
  import opened Addresses

  const NONCE_SIZE := 24
  const SHARED_KEY_LEN := 32

  datatype Message = Message(payload: Bytes, encrypted: bool, nonce: Bytes, encryptedKey: Bytes)

  datatype Suite = Suite(
    seal: (Bytes, Bytes, Bytes) -> Bytes,
    unseal: (Bytes, Bytes, Bytes) -> Option<Bytes>,
    agree: (Bytes, Bytes) -> Bytes,
    publicKey: Bytes -> Bytes,
    keyName: Bytes -> string,
    encode: Message -> Bytes,
    decode: Bytes -> Option<Message>,
    hash: Bytes -> Bytes,
    addressId: string -> Bytes,
    sign: (Bytes, Bytes) -> Bytes,
    verify: (Bytes, Bytes, Bytes) -> bool)

  /** Unsealing undoes sealing, agreement is symmetric, decoding undoes encoding; a seal is never empty. */
  ghost predicate Lawful(x: Suite) {
    && (forall m, n, k :: x.unseal(x.seal(m, n, k), n, k) == Some(m))
    && (forall m, n, k :: x.seal(m, n, k) != [])
    && (forall a, b :: x.agree(x.publicKey(a), b) == x.agree(x.publicKey(b), a))
    && (forall m :: x.decode(x.encode(m)) == Some(m))
  }

  // ------------------------------------------------- the cache of shared keys

  type Keys = map<string, Bytes>

  function Lookup(x: Suite, secret: Bytes, keys: Keys, remote: Bytes): Bytes {
    if x.keyName(remote) in keys then keys[x.keyName(remote)] else x.agree(remote, secret)
  }

  function Remember(x: Suite, secret: Bytes, keys: Keys, remote: Bytes): Keys {
    keys[x.keyName(remote) := Lookup(x, secret, keys, remote)]
  }

  /** The cache after looking up each of the given keys in turn. */
  ghost function RememberAll(x: Suite, secret: Bytes, keys: Keys, remotes: seq<Bytes>): Keys {
    if remotes == [] then keys
    else
      var n := |remotes| - 1;
      Remember(x, secret, RememberAll(x, secret, keys, remotes[..n]), remotes[n])
  }

  class KeyCache {
    var keys: Keys

    constructor ()
      ensures keys == map[]
    {
      keys := map[];
    }

    method GetOrCompute(x: Suite, remote: Bytes, secret: Bytes) returns (shared: Bytes)
      modifies this
      ensures shared == Lookup(x, secret, old(keys), remote)
      ensures keys == Remember(x, secret, old(keys), remote)
    {
      var name := x.keyName(remote);
      if name in keys {
        shared := keys[name];
        assert keys == keys[name := shared];
      } else {
        shared := x.agree(remote, secret);
        keys := keys[name := shared];
      }
    }
  }

  /** Cached keys of the given remotes are the agreed ones. */
  ghost predicate Agrees(x: Suite, secret: Bytes, keys: Keys, used: seq<Bytes>) {
    forall r :: r in used && x.keyName(r) in keys ==> keys[x.keyName(r)] == x.agree(r, secret)
  }

  /** Remotes that are cached under the same text share the agreed key. */
  ghost predicate ClashFree(x: Suite, secret: Bytes, used: seq<Bytes>) {
    forall r, s :: r in used && s in used && x.keyName(r) == x.keyName(s) ==> x.agree(r, secret) == x.agree(s, secret)
  }

  /** Every lookup of the sequence, starting with an empty cache, gives the agreed key. */
  ghost predicate LookupsRight(x: Suite, secret: Bytes, remotes: seq<Bytes>) {
    forall i :: 0 <= i < |remotes| ==>
      Lookup(x, secret, RememberAll(x, secret, map[], remotes[..i]), remotes[i]) == x.agree(remotes[i], secret)
  }

  lemma {:induction false} CacheStaysRight(x: Suite, secret: Bytes, keys: Keys, remotes: seq<Bytes>, used: seq<Bytes>)
    requires Agrees(x, secret, keys, used) && ClashFree(x, secret, used)
    requires forall r :: r in remotes ==> r in used
    ensures Agrees(x, secret, RememberAll(x, secret, keys, remotes), used)
    ensures forall r :: r in used ==>
              Lookup(x, secret, RememberAll(x, secret, keys, remotes), r) == x.agree(r, secret)
  {
    if remotes != [] {
      CacheStaysRight(x, secret, keys, remotes[..|remotes| - 1], used);
    }
  }

  lemma {:induction false} CachedStays(x: Suite, secret: Bytes, keys: Keys, remotes: seq<Bytes>, name: string)
    requires name in keys
    ensures name in RememberAll(x, secret, keys, remotes) && RememberAll(x, secret, keys, remotes)[name] == keys[name]
  {
    if remotes != [] {
      CachedStays(x, secret, keys, remotes[..|remotes| - 1], name);
    }
  }

  lemma {:induction false} RememberAllConcat(x: Suite, secret: Bytes, keys: Keys, a: seq<Bytes>, b: seq<Bytes>)
    ensures RememberAll(x, secret, keys, a + b) == RememberAll(x, secret, RememberAll(x, secret, keys, a), b)
  {
    if b == [] {
      assert a + b == a;
    } else {
      RememberAllConcat(x, secret, keys, a, b[..|b| - 1]);
      assert (a + b)[..|a + b| - 1] == a + b[..|b| - 1];
    }
  }

  /** A later lookup under the same text gives what the earlier one gave. */
  lemma LaterLookup(x: Suite, secret: Bytes, remotes: seq<Bytes>, i: nat, j: nat)
    requires i < j < |remotes| && x.keyName(remotes[i]) == x.keyName(remotes[j])
    ensures Lookup(x, secret, RememberAll(x, secret, map[], remotes[..j]), remotes[j])
            == Lookup(x, secret, RememberAll(x, secret, map[], remotes[..i]), remotes[i])
  {
    var first := remotes[..i + 1];
    assert first[..i] == remotes[..i];
    assert remotes[..j] == first + remotes[i + 1..j];
    RememberAllConcat(x, secret, map[], first, remotes[i + 1..j]);
    CachedStays(x, secret, RememberAll(x, secret, map[], first), remotes[i + 1..j], x.keyName(remotes[i]));
  }

  /** From an empty cache every lookup is right exactly when no two of the remotes clash. */
  lemma LookupsRightExactly(x: Suite, secret: Bytes, remotes: seq<Bytes>)
    ensures LookupsRight(x, secret, remotes) <==> ClashFree(x, secret, remotes)
  {
    if ClashFree(x, secret, remotes) {
      forall i | 0 <= i < |remotes|
        ensures Lookup(x, secret, RememberAll(x, secret, map[], remotes[..i]), remotes[i]) == x.agree(remotes[i], secret)
      {
        CacheStaysRight(x, secret, map[], remotes[..i], remotes);
      }
    }
    if LookupsRight(x, secret, remotes) {
      forall i, j | 0 <= i < j < |remotes| && x.keyName(remotes[i]) == x.keyName(remotes[j])
        ensures x.agree(remotes[i], secret) == x.agree(remotes[j], secret)
      {
        LaterLookup(x, secret, remotes, i, j);
      }
    }
  }

  // -------------------------------------------------------------- encrypting

  /** The random values of one call. */
  datatype Random = Random(key: Bytes, msgNonce: Bytes, keyNonces: seq<Bytes>)

  predicate RandomOk(rnd: Random, n: nat) {
    && |rnd.key| == SHARED_KEY_LEN && |rnd.msgNonce| == NONCE_SIZE
    && |rnd.keyNonces| == n && forall i :: 0 <= i < n ==> |rnd.keyNonces[i]| == NONCE_SIZE
  }

  /** The message for destination `i` of `n`: one payload key sealed for each when there are several. */
  function SealedFor(x: Suite, raw: Bytes, rnd: Random, n: nat, i: nat, shared: Bytes): Message
    requires i < |rnd.keyNonces|
  {
    if n > 1 then
      Message(x.seal(raw, rnd.msgNonce, rnd.key), true, rnd.keyNonces[i] + rnd.msgNonce,
              x.seal(rnd.key, rnd.keyNonces[i], shared))
    else
      Message(x.seal(raw, rnd.msgNonce, shared), true, rnd.msgNonce, [])
  }

  predicate Parses(dest: string) { ParseAddress(dest).Ok? }

  ghost predicate AllParse(dests: seq<string>) {
    forall i :: 0 <= i < |dests| ==> Parses(dests[i])
  }

  /** The error is that of the first address that does not parse. */
  ghost predicate FirstBadAddress(dests: seq<string>, error: AddressError) {
    exists k :: 0 <= k < |dests| && AllParse(dests[..k]) && ParseAddress(dests[k]) == Err(error)
  }

  lemma BadAddressAt(dests: seq<string>, k: nat)
    requires k < |dests| && AllParse(dests[..k]) && !Parses(dests[k])
    ensures FirstBadAddress(dests, ParseAddress(dests[k]).error)
  {
  }

  ghost function KeyOf(dest: string): Bytes {
    if ParseAddress(dest).Ok? then ParseAddress(dest).value.0 else []
  }

  ghost function KeysOf(dests: seq<string>): seq<Bytes> {
    seq(|dests|, i requires 0 <= i < |dests| => KeyOf(dests[i]))
  }

  /** The keys that are looked up for a list of addresses: those before the first one that does not parse. */
  ghost function LookedUp(dests: seq<string>): seq<Bytes> {
    if dests == [] || !Parses(dests[0]) then [] else [KeyOf(dests[0])] + LookedUp(dests[1..])
  }

  lemma {:induction false} LookedUpTo(dests: seq<string>, i: nat)
    requires i <= |dests| && AllParse(dests[..i])
    requires i == |dests| || !Parses(dests[i])
    ensures LookedUp(dests) == KeysOf(dests[..i])
  {
    hide Parses, KeyOf;
    if i > 0 {
      assert dests[..i][0] == dests[0];
      var tail := dests[1..][..i - 1];
      forall k | 0 <= k < |tail|
        ensures Parses(tail[k])
      {
        assert Parses(dests[..i][k + 1]);
      }
      LookedUpTo(dests[1..], i - 1);
      assert KeysOf(dests[..i]) == [KeyOf(dests[0])] + KeysOf(tail);
    }
  }

  /** The shared key used for destination `i`, after the lookups for the destinations before it. */
  ghost function SharedFor(x: Suite, secret: Bytes, keys: Keys, dests: seq<string>, i: nat): Bytes
    requires i < |dests|
  {
    Lookup(x, secret, RememberAll(x, secret, keys, KeysOf(dests[..i])), KeyOf(dests[i]))
  }

  lemma AllParseSnoc(dests: seq<string>, i: nat)
    requires i < |dests|
    ensures AllParse(dests[..i + 1]) <==> AllParse(dests[..i]) && Parses(dests[i])
    ensures AllParse(dests) ==> Parses(dests[i])
  {
  }

  lemma KeysOfSnoc(dests: seq<string>, i: nat)
    requires i < |dests|
    ensures KeysOf(dests[..i + 1]) == KeysOf(dests[..i]) + [KeyOf(dests[i])]
    ensures KeysOf(dests[..i + 1])[..i] == KeysOf(dests[..i])
  {
  }

  lemma RememberedNone(x: Suite, secret: Bytes, keys: Keys, dests: seq<string>)
    ensures RememberAll(x, secret, keys, KeysOf(dests[..0])) == keys
  {
  }

  lemma RememberedNext(x: Suite, secret: Bytes, keys: Keys, dests: seq<string>, i: nat)
    requires i < |dests|
    ensures RememberAll(x, secret, keys, KeysOf(dests[..i + 1]))
            == Remember(x, secret, RememberAll(x, secret, keys, KeysOf(dests[..i])), KeyOf(dests[i]))
  {
    KeysOfSnoc(dests, i);
  }

  /** What the message for destination `i` is encoded from. */
  ghost function MessageFor(x: Suite, raw: Bytes, secret: Bytes, keys: Keys, dests: seq<string>, rnd: Random, i: nat)
    : Message
    requires i < |dests| == |rnd.keyNonces|
  {
    SealedFor(x, raw, rnd, |dests|, i, SharedFor(x, secret, keys, dests, i))
  }

  /** One of several messages: the payload under the random key of the call, and that key under the shared one. */
  ghost predicate SealsWithOwnKey(x: Suite, bytes: Bytes, raw: Bytes, rnd: Random, i: nat, shared: Bytes)
    requires i < |rnd.keyNonces|
  {
    x.decode(bytes).Some?
    && var m := x.decode(bytes).value;
       && m.encrypted && m.encryptedKey != [] && m.nonce == rnd.keyNonces[i] + rnd.msgNonce
       && x.unseal(m.payload, rnd.msgNonce, rnd.key) == Some(raw)
       && x.unseal(m.encryptedKey, rnd.keyNonces[i], shared) == Some(rnd.key)
  }

  /** A message on its own: the payload under the shared key. */
  ghost predicate SealsDirectly(x: Suite, bytes: Bytes, raw: Bytes, rnd: Random, shared: Bytes) {
    x.decode(bytes).Some?
    && var m := x.decode(bytes).value;
       && m.encrypted && m.encryptedKey == [] && m.nonce == rnd.msgNonce
       && x.unseal(m.payload, rnd.msgNonce, shared) == Some(raw)
  }

  /** What the encoded message for a destination holds, read back with the cipher. */
  lemma SealedMeans(x: Suite, raw: Bytes, rnd: Random, n: nat, i: nat, shared: Bytes)
    requires Lawful(x) && i < n == |rnd.keyNonces|
    ensures n > 1 ==> SealsWithOwnKey(x, x.encode(SealedFor(x, raw, rnd, n, i, shared)), raw, rnd, i, shared)
    ensures n == 1 ==> SealsDirectly(x, x.encode(SealedFor(x, raw, rnd, n, i, shared)), raw, rnd, shared)
  {
  }

  /** Every message of a call is sealed in this way, under the key looked up for its destination. */
  ghost predicate AllSealed(x: Suite, raw: Bytes, secret: Bytes, keys: Keys, dests: seq<string>, rnd: Random,
                            made: seq<Bytes>)
  {
    && |made| == |dests| == |rnd.keyNonces|
    && forall i :: 0 <= i < |dests| ==>
         if |dests| > 1 then SealsWithOwnKey(x, made[i], raw, rnd, i, SharedFor(x, secret, keys, dests, i))
         else SealsDirectly(x, made[i], raw, rnd, SharedFor(x, secret, keys, dests, i))
  }

  lemma MessagesAreSealed(x: Suite, raw: Bytes, secret: Bytes, keys: Keys, dests: seq<string>, rnd: Random, made: seq<Bytes>)
    requires Lawful(x) && |made| == |dests| == |rnd.keyNonces|
    requires forall i :: 0 <= i < |dests| ==> made[i] == x.encode(MessageFor(x, raw, secret, keys, dests, rnd, i))
    ensures AllSealed(x, raw, secret, keys, dests, rnd, made)
  {
    hide SealedFor, Lawful, SharedFor, SealsWithOwnKey, SealsDirectly;
    forall i | 0 <= i < |dests|
      ensures if |dests| > 1 then SealsWithOwnKey(x, made[i], raw, rnd, i, SharedFor(x, secret, keys, dests, i))
              else SealsDirectly(x, made[i], raw, rnd, SharedFor(x, secret, keys, dests, i))
    {
      SealedMeans(x, raw, rnd, |dests|, i, SharedFor(x, secret, keys, dests, i));
    }
  }

  method EncryptForMany(x: Suite, raw: Bytes, dests: seq<string>, secret: Bytes, cache: KeyCache, rnd: Random)
    returns (r: Result<seq<Bytes>, AddressError>)
    requires |dests| > 1 && RandomOk(rnd, |dests|)
    modifies cache
    ensures r.Ok? <==> AllParse(dests)
    ensures r.Ok? ==>
              && |r.value| == |dests|
              && (forall i :: 0 <= i < |dests| ==>
                    r.value[i] == x.encode(MessageFor(x, raw, secret, old(cache.keys), dests, rnd, i)))
    ensures r.Ok? && Lawful(x) ==> AllSealed(x, raw, secret, old(cache.keys), dests, rnd, r.value)
    ensures r.Err? ==> FirstBadAddress(dests, r.error)
    ensures cache.keys == RememberAll(x, secret, old(cache.keys), LookedUp(dests))
  {
    hide ParseAddress, RememberAll, LookedUp, Remember, Lookup, KeysOf, AllSealed, Lawful, FirstBadAddress;
    RememberedNone(x, secret, cache.keys, dests);
    var sealedPayload := x.seal(raw, rnd.msgNonce, rnd.key);
    var msgs: seq<Bytes> := [];
    for i := 0 to |dests|
      invariant |msgs| == i && AllParse(dests[..i])
      invariant cache.keys == RememberAll(x, secret, old(cache.keys), KeysOf(dests[..i]))
      invariant forall k :: 0 <= k < i ==>
                  msgs[k] == x.encode(MessageFor(x, raw, secret, old(cache.keys), dests, rnd, k))
    {
      RememberedNext(x, secret, old(cache.keys), dests, i);
      AllParseSnoc(dests, i);
      var parsed := ParseAddress(dests[i]);
      if parsed.Err? {
        LookedUpTo(dests, i);
        BadAddressAt(dests, i);
        return Err(parsed.error);
      }
      var shared := cache.GetOrCompute(x, parsed.value.0, secret);
      var keyNonce := rnd.keyNonces[i];
      var sealedKey := x.seal(rnd.key, keyNonce, shared);
      msgs := msgs + [x.encode(Message(sealedPayload, true, keyNonce + rnd.msgNonce, sealedKey))];
    }
    assert dests[..|dests|] == dests;
    LookedUpTo(dests, |dests|);
    if Lawful(x) {
      MessagesAreSealed(x, raw, secret, old(cache.keys), dests, rnd, msgs);
    }
    r := Ok(msgs);
  }

  method EncryptPayload(x: Suite, raw: Bytes, dests: seq<string>, secret: Bytes, cache: KeyCache, rnd: Random)
    returns (r: Result<seq<Bytes>, AddressError>)
    requires dests != [] && RandomOk(rnd, |dests|)
    modifies cache
    ensures r.Ok? <==> AllParse(dests)
    ensures r.Ok? ==>
              && |r.value| == |dests|
              && (forall i :: 0 <= i < |dests| ==>
                    r.value[i] == x.encode(MessageFor(x, raw, secret, old(cache.keys), dests, rnd, i)))
    ensures r.Ok? && Lawful(x) ==> AllSealed(x, raw, secret, old(cache.keys), dests, rnd, r.value)
    ensures r.Err? ==> FirstBadAddress(dests, r.error)
    ensures cache.keys == RememberAll(x, secret, old(cache.keys), LookedUp(dests))
  {
    if |dests| > 1 {
      r := EncryptForMany(x, raw, dests, secret, cache, rnd);
    } else {
      assert dests == dests[..1] && dests[..0] == [];
      KeysOfSnoc(dests, 0);
      var parsed := ParseAddress(dests[0]);
      if parsed.Err? {
        LookedUpTo(dests, 0);
        BadAddressAt(dests, 0);
        return Err(parsed.error);
      }
      LookedUpTo(dests, 1);
      var shared := cache.GetOrCompute(x, parsed.value.0, secret);
      r := Ok([x.encode(Message(x.seal(raw, rnd.msgNonce, shared), true, rnd.msgNonce, []))]);
      if Lawful(x) {
        MessagesAreSealed(x, raw, secret, old(cache.keys), dests, rnd, r.value);
      }
    }
  }

  // -------------------------------------------------------------- decrypting

  datatype ReceiveError = BadSource(error: AddressError) | CannotOpen

  /** What a receiver makes of an encrypted message; None where the source panics. */
  function Opened(x: Suite, msg: Message, shared: Bytes): Option<Bytes> {
    if msg.encryptedKey != [] then
      if |msg.nonce| != 2 * NONCE_SIZE then None
      else
        var key := x.unseal(msg.encryptedKey, msg.nonce[..NONCE_SIZE], shared);
        if key.None? || |key.value| != SHARED_KEY_LEN then None
        else x.unseal(msg.payload, msg.nonce[NONCE_SIZE..], key.value)
    else if |msg.nonce| != NONCE_SIZE then None
    else x.unseal(msg.payload, msg.nonce, shared)
  }

  method DecryptPayload(x: Suite, msg: Message, src: string, secret: Bytes, cache: KeyCache)
    returns (r: Result<Bytes, ReceiveError>)
    modifies cache
    ensures ParseAddress(src).Err? ==> r == Err(BadSource(ParseAddress(src).error)) && cache.keys == old(cache.keys)
    ensures ParseAddress(src).Ok? ==>
              && cache.keys == Remember(x, secret, old(cache.keys), KeyOf(src))
              && var p := Opened(x, msg, Lookup(x, secret, old(cache.keys), KeyOf(src)));
                 r == if p.Some? then Ok(p.value) else Err(CannotOpen)
  {
    var parsed := ParseAddress(src);
    if parsed.Err? {
      return Err(BadSource(parsed.error));
    }
    var shared := cache.GetOrCompute(x, parsed.value.0, secret);
    if msg.encryptedKey != [] {
      if |msg.nonce| != 2 * NONCE_SIZE {
        return Err(CannotOpen);
      }
      var key := x.unseal(msg.encryptedKey, msg.nonce[..NONCE_SIZE], shared);
      if key.None? || |key.value| != SHARED_KEY_LEN {
        return Err(CannotOpen);
      }
      var payload := x.unseal(msg.payload, msg.nonce[NONCE_SIZE..], key.value);
      r := if payload.Some? then Ok(payload.value) else Err(CannotOpen);
    } else {
      if |msg.nonce| != NONCE_SIZE {
        return Err(CannotOpen);
      }
      var payload := x.unseal(msg.payload, msg.nonce, shared);
      r := if payload.Some? then Ok(payload.value) else Err(CannotOpen);
    }
  }

  /**
   * Exactly when a message opens, and to what: directly under the shared key, or, when it carries a key,
   * under that key, which must be of the right length. The nonces are of 24 bytes each.
   */
  lemma OpensExactly(x: Suite, msg: Message, shared: Bytes, p: Bytes)
    ensures Opened(x, msg, shared) == Some(p) <==>
              if msg.encryptedKey == [] then |msg.nonce| == 24 && x.unseal(msg.payload, msg.nonce, shared) == Some(p)
              else |msg.nonce| == 48
                   && exists key :: |key| == 32 && x.unseal(msg.encryptedKey, msg.nonce[..24], shared) == Some(key)
                                    && x.unseal(msg.payload, msg.nonce[24..], key) == Some(p)
  {
  }

  /** A message sealed under a shared key opens to the payload under that key, in both forms. */
  lemma OpenUndoesSeal(x: Suite, raw: Bytes, rnd: Random, n: nat, i: nat, shared: Bytes)
    requires Lawful(x) && RandomOk(rnd, n) && i < n
    ensures Opened(x, SealedFor(x, raw, rnd, n, i, shared), shared) == Some(raw)
  {
  }

  /** Received bytes: decoded, and decrypted when marked as encrypted; None where the source fails. */
  function ReceivedPayload(x: Suite, bytes: Bytes, src: string, secret: Bytes, keys: Keys): Option<Bytes> {
    var msg := x.decode(bytes);
    if msg.None? then None
    else if !msg.value.encrypted then Some(msg.value.payload)
    else if ParseAddress(src).Err? then None
    else Opened(x, msg.value, Lookup(x, secret, keys, ParseAddress(src).value.0))
  }

  lemma LookedUpOne(x: Suite, secret: Bytes, keys: Keys, src: string)
    ensures RememberAll(x, secret, keys, LookedUp([src]))
            == if ParseAddress(src).Ok? then Remember(x, secret, keys, KeyOf(src)) else keys
  {
    hide ParseAddress;
    assert [KeyOf(src)][..0] == [];
  }

  method ReceivePayload(x: Suite, bytes: Bytes, src: string, secret: Bytes, cache: KeyCache)
    returns (r: Option<Bytes>)
    modifies cache
    ensures r == ReceivedPayload(x, bytes, src, secret, old(cache.keys))
    ensures cache.keys == AfterUse(x, secret, old(cache.keys), Receives(bytes, src))
  {
    hide ParseAddress, Opened;
    var msg := x.decode(bytes);
    if msg.None? {
      return None;
    }
    if !msg.value.encrypted {
      return Some(msg.value.payload);
    }
    LookedUpOne(x, secret, cache.keys, src);
    var payload := DecryptPayload(x, msg.value, src, secret, cache);
    r := if payload.Ok? then Some(payload.value) else None;
  }

  // -------------------------------------------------- the cache over a run

  /** One use of a participant's cache: a payload sent, or one received. */
  datatype KeyUse = Sends(dests: seq<string>, encrypted: bool) | Receives(bytes: Bytes, src: string)

  ghost function KeysUsed(x: Suite, use: KeyUse): seq<Bytes> {
    match use
    case Sends(dests, encrypted) => if encrypted then LookedUp(dests) else []
    case Receives(bytes, src) =>
      var msg := x.decode(bytes);
      if msg.Some? && msg.value.encrypted then LookedUp([src]) else []
  }

  ghost function AfterUse(x: Suite, secret: Bytes, keys: Keys, use: KeyUse): Keys {
    RememberAll(x, secret, keys, KeysUsed(x, use))
  }

  /** The cache of a participant that began with an empty one. */
  ghost function AfterUses(x: Suite, secret: Bytes, uses: seq<KeyUse>): Keys {
    if uses == [] then map[]
    else AfterUse(x, secret, AfterUses(x, secret, uses[..|uses| - 1]), uses[|uses| - 1])
  }

  ghost function AllKeysUsed(x: Suite, uses: seq<KeyUse>): seq<Bytes> {
    if uses == [] then [] else AllKeysUsed(x, uses[..|uses| - 1]) + KeysUsed(x, uses[|uses| - 1])
  }

  lemma {:induction false} AfterUsesIsOneRun(x: Suite, secret: Bytes, uses: seq<KeyUse>)
    ensures AfterUses(x, secret, uses) == RememberAll(x, secret, map[], AllKeysUsed(x, uses))
  {
    if uses != [] {
      var n := |uses| - 1;
      AfterUsesIsOneRun(x, secret, uses[..n]);
      RememberAllConcat(x, secret, map[], AllKeysUsed(x, uses[..n]), KeysUsed(x, uses[n]));
    }
  }

  /** After any run, successful or not, further lookups are right as long as no two remotes clash. */
  lemma LookupAfterUses(x: Suite, secret: Bytes, uses: seq<KeyUse>, more: seq<Bytes>, i: nat)
    requires i < |more| && ClashFree(x, secret, AllKeysUsed(x, uses) + more)
    ensures Lookup(x, secret, RememberAll(x, secret, AfterUses(x, secret, uses), more[..i]), more[i])
            == x.agree(more[i], secret)
  {
    hide RememberAll, AfterUses, AllKeysUsed, ClashFree, Lookup;
    var used := AllKeysUsed(x, uses);
    AfterUsesIsOneRun(x, secret, uses);
    LookupsRightExactly(x, secret, used + more);
    RememberAllConcat(x, secret, map[], used, more[..i]);
    assert (used + more)[..|used| + i] == used + more[..i] && (used + more)[|used| + i] == more[i];
  }
}
