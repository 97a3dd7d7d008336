/** The Redis store (capredis/store.go): keys with deadlines, changed by atomic commands and scripts. */
module Redis {
  import opened Numerals
  import opened Store

  datatype Value =
    | ChallengeV(challenge: ChallengeRecord)
    | NonceV(expiresAt: int)
    | TokenV(token: TokenRecord)

  /** Redis may drop the key at any moment from its deadline on. */
  datatype Entry = Entry(value: Value, deadline: int)

  type Keys = map<string, Entry>

  function ChallengeKey(prefix: string, token: string): string { prefix + "challenge:" + token }
  function NonceKey(prefix: string, key: string): string { prefix + "nonce:" + key }
  function TokenStoreKey(prefix: string, key: string): string { prefix + "token:" + key }

  /** ttlFor, in milliseconds. */
  function TtlFor(expires: int, now: int): (ttl: int)
    ensures ttl >= 1 && now + ttl >= expires
  {
    if expires - now < 1 then 1 else expires - now
  }

  /** One store call; `at` is the clock when Redis runs it. */
  function RedisStep(keys: Keys, prefix: string, op: Op, at: int): (Keys, Answer) {
    match op
    case PutChallenge(token, record) =>
      (keys[ChallengeKey(prefix, token) := Entry(ChallengeV(record), at + TtlFor(record.expires, at))], Done)
    case TakeChallenge(token, now) =>
      var k := ChallengeKey(prefix, token);
      if k !in keys || !keys[k].value.ChallengeV? then (keys, Challenge(None))
      else
        var record := keys[k].value.challenge;
        (Without(keys, k), Challenge(if record.expires <= now then None else Some(record)))
    case ClaimNonce(key, expiresAt, now) =>
      var k := NonceKey(prefix, key);
      if k in keys then (keys, Claimed(false))
      else (keys[k := Entry(NonceV(expiresAt), at + TtlFor(expiresAt, now))], Claimed(true))
    case PutToken(key, record) =>
      (keys[TokenStoreKey(prefix, key) := Entry(TokenV(record), at + TtlFor(record.expires, at))], Done)
    case ConsumeToken(key, scope, now, keep) =>
      var k := TokenStoreKey(prefix, key);
      if k !in keys || !keys[k].value.TokenV? then (keys, Consumed(None))
      else
        var record := keys[k].value.token;
        if scope != "" && record.scope != scope then (keys, Consumed(None))
        else if record.expires <= now then (Without(keys, k), Consumed(None))
        else (if keep then keys else Without(keys, k), Consumed(Some(record)))
    case Cleanup(_) => (keys, Done)
    case Reset => (map k | k in keys && !(prefix <= k) :: keys[k], Done)
  }

  class RedisStore {
    const prefix: string
    var keys: Keys

    constructor (prefix: string)
      ensures this.prefix == prefix && keys == map[]
    {
      this.prefix := prefix;
      keys := map[];
    }

    /** SET with a TTL. */
    method PutChallenge(token: string, record: ChallengeRecord, at: int)
      modifies this
      ensures keys == RedisStep(old(keys), prefix, Op.PutChallenge(token, record), at).0
    {
      keys := keys[ChallengeKey(prefix, token) := Entry(ChallengeV(record), at + TtlFor(record.expires, at))];
    }

    /** The GET and DEL script, then the expiry test in Go. */
    method TakeChallenge(token: string, now: int, at: int) returns (found: Option<ChallengeRecord>)
      modifies this
      ensures (keys, Challenge(found)) == RedisStep(old(keys), prefix, Op.TakeChallenge(token, now), at)
    {
      var k := ChallengeKey(prefix, token);
      if k !in keys || !keys[k].value.ChallengeV? {
        return None;
      }
      var v := keys[k].value;
      keys := Without(keys, k);
      if v.challenge.expires <= now {
        return None;
      }
      return Some(v.challenge);
    }

    /** SET NX with a TTL. */
    method ClaimNonce(key: string, expiresAt: int, now: int, at: int) returns (ok: bool)
      modifies this
      ensures (keys, Claimed(ok)) == RedisStep(old(keys), prefix, Op.ClaimNonce(key, expiresAt, now), at)
    {
      var ttl := TtlFor(expiresAt, now);
      var k := NonceKey(prefix, key);
      if k in keys {
        return false;
      }
      keys := keys[k := Entry(NonceV(expiresAt), at + ttl)];
      return true;
    }

    method PutToken(key: string, record: TokenRecord, at: int)
      modifies this
      ensures keys == RedisStep(old(keys), prefix, Op.PutToken(key, record), at).0
    {
      keys := keys[TokenStoreKey(prefix, key) := Entry(TokenV(record), at + TtlFor(record.expires, at))];
    }

    /** The consume script: scope first, then expiry, then the deletion. */
    method ConsumeToken(key: string, scope: string, now: int, keep: bool, at: int) returns (token: Option<TokenRecord>)
      modifies this
      ensures (keys, Consumed(token)) == RedisStep(old(keys), prefix, Op.ConsumeToken(key, scope, now, keep), at)
    {
      var k := TokenStoreKey(prefix, key);
      if k !in keys || !keys[k].value.TokenV? {
        return None;
      }
      var rec := keys[k].value.token;
      if scope != "" && rec.scope != scope {
        return None;
      }
      if rec.expires <= now {
        keys := Without(keys, k);
        return None;
      }
      if !keep {
        keys := Without(keys, k);
      }
      return Some(rec);
    }
  }

  // ----- keys -----

  lemma KeysDiffer(prefix: string, a: string, b: string)
    ensures ChallengeKey(prefix, a) != NonceKey(prefix, b)
    ensures ChallengeKey(prefix, a) != TokenStoreKey(prefix, b)
    ensures NonceKey(prefix, a) != TokenStoreKey(prefix, b)
    ensures ChallengeKey(prefix, a) == ChallengeKey(prefix, b) <==> a == b
    ensures NonceKey(prefix, a) == NonceKey(prefix, b) <==> a == b
    ensures TokenStoreKey(prefix, a) == TokenStoreKey(prefix, b) <==> a == b
    ensures prefix <= ChallengeKey(prefix, a) && prefix <= NonceKey(prefix, a) && prefix <= TokenStoreKey(prefix, a)
  {
    var n := |prefix|;
    assert ChallengeKey(prefix, a)[n] == 'c' && NonceKey(prefix, a)[n] == 'n' && TokenStoreKey(prefix, a)[n] == 't';
    assert NonceKey(prefix, b)[n] == 'n' && TokenStoreKey(prefix, b)[n] == 't';
    assert ChallengeKey(prefix, a)[n + 10..] == a && ChallengeKey(prefix, b)[n + 10..] == b;
    assert NonceKey(prefix, a)[n + 6..] == a && NonceKey(prefix, b)[n + 6..] == b;
    assert TokenStoreKey(prefix, a)[n + 6..] == a && TokenStoreKey(prefix, b)[n + 6..] == b;
  }
}
