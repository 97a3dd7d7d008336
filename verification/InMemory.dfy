/** MemoryStore (store.go): the single-process store, each method atomic under its lock. */
module InMemory {
  import opened Numerals
  import opened Store

  class MemoryStore {
    var challenges: map<string, ChallengeRecord>
    var nonces: map<string, int>
    var tokens: map<string, TokenRecord>

    ghost function Contents(): State
      reads this
    {
      State(challenges, nonces, tokens)
    }

    constructor ()
      ensures Contents() == EMPTY
    {
      challenges, nonces, tokens := map[], map[], map[];
    }

    method PutChallenge(token: string, record: ChallengeRecord)
      modifies this
      ensures Contents() == Step(old(Contents()), Op.PutChallenge(token, record)).0
    {
      challenges := challenges[token := record];
    }

    method TakeChallenge(token: string, now: int) returns (found: Option<ChallengeRecord>)
      modifies this
      ensures (Contents(), Challenge(found)) == Step(old(Contents()), Op.TakeChallenge(token, now))
    {
      if token !in challenges {
        return None;
      }
      var record := challenges[token];
      challenges := Without(challenges, token);
      if record.expires <= now {
        return None;
      }
      return Some(record);
    }

    method ClaimNonce(key: string, expiresAt: int, now: int) returns (ok: bool)
      modifies this
      ensures (Contents(), Claimed(ok)) == Step(old(Contents()), Op.ClaimNonce(key, expiresAt, now))
    {
      if key in nonces && nonces[key] > now {
        return false;
      }
      nonces := nonces[key := expiresAt];
      return true;
    }

    method PutToken(key: string, record: TokenRecord)
      modifies this
      ensures Contents() == Step(old(Contents()), Op.PutToken(key, record)).0
    {
      tokens := tokens[key := record];
    }

    method ConsumeToken(key: string, scope: string, now: int, keep: bool) returns (token: Option<TokenRecord>)
      modifies this
      ensures (Contents(), Consumed(token)) == Step(old(Contents()), Op.ConsumeToken(key, scope, now, keep))
    {
      if key !in tokens {
        return None;
      }
      var record := tokens[key];
      if record.expires <= now {
        tokens := Without(tokens, key);
        return None;
      }
      if scope != "" && record.scope != scope {
        return None;
      }
      if !keep {
        tokens := Without(tokens, key);
      }
      return Some(record);
    }

    /** Each loop visits the keys present when it starts, in any order, deleting as it goes. */
    method Cleanup(now: int)
      modifies this
      ensures Contents() == Step(old(Contents()), Op.Cleanup(now)).0
    {
      CleanupChallenges(now);
      CleanupNonces(now);
      CleanupTokens(now);
    }

    method CleanupChallenges(now: int)
      modifies `challenges
      ensures challenges == map k | k in old(challenges) && old(challenges)[k].expires > now :: old(challenges)[k]
    {
      var pending := challenges.Keys;
      while pending != {}
        invariant pending <= challenges.Keys <= old(challenges).Keys
        invariant forall k :: k in challenges ==> challenges[k] == old(challenges)[k]
        invariant forall k :: k in old(challenges) && k !in pending ==>
                    (k in challenges <==> old(challenges)[k].expires > now)
        decreases pending
      {
        var key :| key in pending;
        if challenges[key].expires <= now {
          challenges := Without(challenges, key);
        }
        pending := pending - {key};
      }
    }

    method CleanupNonces(now: int)
      modifies `nonces
      ensures nonces == map k | k in old(nonces) && old(nonces)[k] > now :: old(nonces)[k]
    {
      var pending := nonces.Keys;
      while pending != {}
        invariant pending <= nonces.Keys <= old(nonces).Keys
        invariant forall k :: k in nonces ==> nonces[k] == old(nonces)[k]
        invariant forall k :: k in old(nonces) && k !in pending ==> (k in nonces <==> old(nonces)[k] > now)
        decreases pending
      {
        var key :| key in pending;
        if nonces[key] <= now {
          nonces := Without(nonces, key);
        }
        pending := pending - {key};
      }
    }

    method CleanupTokens(now: int)
      modifies `tokens
      ensures tokens == map k | k in old(tokens) && old(tokens)[k].expires > now :: old(tokens)[k]
    {
      var pending := tokens.Keys;
      while pending != {}
        invariant pending <= tokens.Keys <= old(tokens).Keys
        invariant forall k :: k in tokens ==> tokens[k] == old(tokens)[k]
        invariant forall k :: k in old(tokens) && k !in pending ==> (k in tokens <==> old(tokens)[k].expires > now)
        decreases pending
      {
        var key :| key in pending;
        if tokens[key].expires <= now {
          tokens := Without(tokens, key);
        }
        pending := pending - {key};
      }
    }

    method Reset()
      modifies this
      ensures Contents() == Step(old(Contents()), Op.Reset).0
    {
      challenges, nonces, tokens := map[], map[], map[];
    }
  }
}
