/** Runs over the Redis store against runs over the in-memory one, and what both conserve. */
module RedisAgreement {
  import opened Numerals
  import opened Redis
  import opened Store

  /** What happens at one moment: a call by some replica, or Redis dropping a key that is due. */
  datatype Event = Call(op: Op, at: int) | Drop(key: string, at: int)

  function Apply(keys: Keys, prefix: string, e: Event): Keys {
    match e
    case Call(op, at) => RedisStep(keys, prefix, op, at).0
    case Drop(key, at) => if key in keys && keys[key].deadline <= at then Without(keys, key) else keys
  }

  function Calls(events: seq<Event>): seq<Op> {
    if events == [] then []
    else (if events[0].Call? then [events[0].op] else []) + Calls(events[1..])
  }

  /** One nondecreasing clock, which also stamps every call. */
  predicate OneClock(events: seq<Event>, from: int) {
    if events == [] then true
    else
      && from <= events[0].at
      && (events[0].Call? && TimeOf(events[0].op).Some? ==> TimeOf(events[0].op).value == events[0].at)
      && OneClock(events[1..], events[0].at)
  }

  /** The same challenge is live in both stores at time t, and Redis cannot drop it before it expires. */
  ghost predicate ChallengeSim(m: State, keys: Keys, prefix: string, t: int, token: string) {
    var k := ChallengeKey(prefix, token);
    && (k in keys ==> keys[k].value.ChallengeV? && keys[k].deadline >= keys[k].value.challenge.expires)
    && (token in m.challenges && m.challenges[token].expires > t ==>
          k in keys && keys[k].value.challenge == m.challenges[token])
    && (k in keys && keys[k].value.challenge.expires > t ==>
          token in m.challenges && m.challenges[token] == keys[k].value.challenge)
  }

  ghost predicate TokenSim(m: State, keys: Keys, prefix: string, t: int, key: string) {
    var k := TokenStoreKey(prefix, key);
    && (k in keys ==> keys[k].value.TokenV? && keys[k].deadline >= keys[k].value.token.expires)
    && (key in m.tokens && m.tokens[key].expires > t ==> k in keys && keys[k].value.token == m.tokens[key])
    && (k in keys && keys[k].value.token.expires > t ==> key in m.tokens && m.tokens[key] == keys[k].value.token)
  }

  /** While key's claims could still come in time, both stores know whether it was claimed. */
  ghost predicate NonceSim(m: State, keys: Keys, prefix: string, t: int, expiry: string -> int, key: string) {
    var k := NonceKey(prefix, key);
    && (k in keys ==> keys[k].deadline >= expiry(key))
    && (key in m.nonces ==> m.nonces[key] == expiry(key))
    && (t < expiry(key) ==> (key in m.nonces <==> k in keys))
  }

  predicate Stamped(op: Op, at: int) {
    TimeOf(op).Some? ==> TimeOf(op).value == at
  }

  /** Operations on other kinds of entries; Cleanup only drops dead ones. */
  lemma ChallengeStepApart(m: State, keys: Keys, prefix: string, t: int, op: Op, at: int, token: string)
    requires ChallengeSim(m, keys, prefix, t, token) && t <= at && Stamped(op, at)
    requires !op.PutChallenge? && !op.TakeChallenge? && !op.Reset?
    ensures ChallengeSim(Step(m, op).0, RedisStep(keys, prefix, op, at).0, prefix, at, token)
  {
    match op
    case ClaimNonce(k, _, _) => KeysDiffer(prefix, token, k);
    case PutToken(k, _) => KeysDiffer(prefix, token, k);
    case ConsumeToken(k, _, _, _) => KeysDiffer(prefix, token, k);
    case Cleanup(_) =>
  }

  lemma ChallengeStep(m: State, keys: Keys, prefix: string, t: int, op: Op, at: int, token: string)
    requires ChallengeSim(m, keys, prefix, t, token) && t <= at && Stamped(op, at)
    ensures ChallengeSim(Step(m, op).0, RedisStep(keys, prefix, op, at).0, prefix, at, token)
    ensures op.TakeChallenge? && op.token == token ==> Step(m, op).1 == RedisStep(keys, prefix, op, at).1
  {
    match op
    case PutChallenge(u, _) => KeysDiffer(prefix, token, u);
    case TakeChallenge(u, _) => KeysDiffer(prefix, token, u);
    case Reset => KeysDiffer(prefix, token, token);
    case _ => ChallengeStepApart(m, keys, prefix, t, op, at, token);
  }

  /** Operations on other kinds of entries; Cleanup only drops dead ones. */
  lemma TokenStepApart(m: State, keys: Keys, prefix: string, t: int, op: Op, at: int, key: string)
    requires TokenSim(m, keys, prefix, t, key) && t <= at && Stamped(op, at)
    requires !op.PutToken? && !op.ConsumeToken? && !op.Reset?
    ensures TokenSim(Step(m, op).0, RedisStep(keys, prefix, op, at).0, prefix, at, key)
  {
    match op
    case PutChallenge(u, _) => KeysDiffer(prefix, u, key);
    case TakeChallenge(u, _) => KeysDiffer(prefix, u, key);
    case ClaimNonce(k, _, _) => KeysDiffer(prefix, k, key);
    case Cleanup(_) =>
  }

  lemma TokenStep(m: State, keys: Keys, prefix: string, t: int, op: Op, at: int, key: string)
    requires TokenSim(m, keys, prefix, t, key) && t <= at && Stamped(op, at)
    ensures TokenSim(Step(m, op).0, RedisStep(keys, prefix, op, at).0, prefix, at, key)
    ensures op.ConsumeToken? && op.key == key ==> Step(m, op).1 == RedisStep(keys, prefix, op, at).1
  {
    match op
    case PutToken(k, _) => KeysDiffer(prefix, k, key);
    case ConsumeToken(k, _, _, _) => KeysDiffer(prefix, k, key);
    case Reset => KeysDiffer(prefix, key, key);
    case _ => TokenStepApart(m, keys, prefix, t, op, at, key);
  }

  /** Every claim on a key carries the one expiry its signature fixes. */
  predicate CarriesExpiry(op: Op, expiry: string -> int) {
    op.ClaimNonce? ==> op.expiresAt == expiry(op.key)
  }

  /** A claim from the expiry on, while Redis still holds the key: Redis refuses it, and memory does not. */
  predicate LateHeld(keys: Keys, prefix: string, e: Event, expiry: string -> int) {
    e.Call? && e.op.ClaimNonce? && NonceKey(prefix, e.op.key) in keys && expiry(e.op.key) <= e.at
  }

  lemma NonceStep(m: State, keys: Keys, prefix: string, t: int, op: Op, at: int, expiry: string -> int, key: string)
    requires NonceSim(m, keys, prefix, t, expiry, key) && t <= at && Stamped(op, at) && CarriesExpiry(op, expiry)
    ensures NonceSim(Step(m, op).0, RedisStep(keys, prefix, op, at).0, prefix, at, expiry, key)
  {
    match op
    case PutChallenge(u, _) => KeysDiffer(prefix, u, key);
    case TakeChallenge(u, _) => KeysDiffer(prefix, u, key);
    case ClaimNonce(k, _, _) => KeysDiffer(prefix, k, key);
    case PutToken(k, _) => KeysDiffer(prefix, key, k);
    case ConsumeToken(k, _, _, _) => KeysDiffer(prefix, key, k);
    case Cleanup(_) =>
    case Reset => KeysDiffer(prefix, key, key);
  }

  lemma ClaimAnswersIff(m: State, keys: Keys, prefix: string, t: int, op: Op, at: int, expiry: string -> int)
    requires op.ClaimNonce? && NonceSim(m, keys, prefix, t, expiry, op.key)
    requires t <= at && Stamped(op, at) && CarriesExpiry(op, expiry)
    ensures Step(m, op).1 == RedisStep(keys, prefix, op, at).1 <==> !LateHeld(keys, prefix, Call(op, at), expiry)
  {
  }

  /** The stores agree at time t on challenges and tokens. */
  ghost predicate Agree(m: State, keys: Keys, prefix: string, t: int) {
    && (forall token :: ChallengeSim(m, keys, prefix, t, token))
    && (forall key :: TokenSim(m, keys, prefix, t, key))
  }

  /** They agree on claimed nonces as well. */
  ghost predicate NoncesAgree(m: State, keys: Keys, prefix: string, t: int, expiry: string -> int) {
    forall key :: NonceSim(m, keys, prefix, t, expiry, key)
  }

  lemma CallKeepsAgreement(m: State, keys: Keys, prefix: string, t: int, op: Op, at: int)
    requires Agree(m, keys, prefix, t) && t <= at && Stamped(op, at)
    ensures Agree(Step(m, op).0, RedisStep(keys, prefix, op, at).0, prefix, at)
    ensures !op.ClaimNonce? ==> Step(m, op).1 == RedisStep(keys, prefix, op, at).1
  {
    var n, r := Step(m, op).0, RedisStep(keys, prefix, op, at).0;
    forall token ensures ChallengeSim(n, r, prefix, at, token) { ChallengeStep(m, keys, prefix, t, op, at, token); }
    forall key ensures TokenSim(n, r, prefix, at, key) { TokenStep(m, keys, prefix, t, op, at, key); }
    match op {
      case TakeChallenge(token, _) => ChallengeStep(m, keys, prefix, t, op, at, token);
      case ConsumeToken(key, _, _, _) => TokenStep(m, keys, prefix, t, op, at, key);
      case _ =>
    }
  }

  lemma CallKeepsNonces(m: State, keys: Keys, prefix: string, t: int, op: Op, at: int, expiry: string -> int)
    requires NoncesAgree(m, keys, prefix, t, expiry) && t <= at && Stamped(op, at) && CarriesExpiry(op, expiry)
    ensures NoncesAgree(Step(m, op).0, RedisStep(keys, prefix, op, at).0, prefix, at, expiry)
    ensures op.ClaimNonce? ==>
              (Step(m, op).1 == RedisStep(keys, prefix, op, at).1 <==> !LateHeld(keys, prefix, Call(op, at), expiry))
  {
    var n, r := Step(m, op).0, RedisStep(keys, prefix, op, at).0;
    forall key ensures NonceSim(n, r, prefix, at, expiry, key) { NonceStep(m, keys, prefix, t, op, at, expiry, key); }
    if op.ClaimNonce? {
      ClaimAnswersIff(m, keys, prefix, t, op, at, expiry);
    }
  }

  lemma DropKeepsAgreement(m: State, keys: Keys, prefix: string, t: int, key: string, at: int)
    requires Agree(m, keys, prefix, t) && t <= at
    ensures Agree(m, Apply(keys, prefix, Drop(key, at)), prefix, at)
  {
    var r := Apply(keys, prefix, Drop(key, at));
    forall token ensures ChallengeSim(m, r, prefix, at, token) { assert ChallengeSim(m, keys, prefix, t, token); }
    forall k ensures TokenSim(m, r, prefix, at, k) { assert TokenSim(m, keys, prefix, t, k); }
  }

  lemma DropKeepsNonces(m: State, keys: Keys, prefix: string, t: int, key: string, at: int, expiry: string -> int)
    requires NoncesAgree(m, keys, prefix, t, expiry) && t <= at
    ensures NoncesAgree(m, Apply(keys, prefix, Drop(key, at)), prefix, at, expiry)
  {
    var r := Apply(keys, prefix, Drop(key, at));
    forall k ensures NonceSim(m, r, prefix, at, expiry, k) { assert NonceSim(m, keys, prefix, t, expiry, k); }
  }

  // ----- whole runs -----

  /** Which answers are compared: all, or all but ClaimNonce's. */
  predicate Compared(op: Op, nonces: bool) {
    nonces || !op.ClaimNonce?
  }

  function MemoryAnswers(m: State, ops: seq<Op>, nonces: bool): seq<Answer>
    decreases |ops|
  {
    if ops == [] then []
    else
      var (n, a) := Step(m, ops[0]);
      (if Compared(ops[0], nonces) then [a] else []) + MemoryAnswers(n, ops[1..], nonces)
  }

  function RedisAnswers(keys: Keys, prefix: string, events: seq<Event>, nonces: bool): seq<Answer>
    decreases |events|
  {
    if events == [] then []
    else
      var e, rest := events[0], RedisAnswers(Apply(keys, prefix, events[0]), prefix, events[1..], nonces);
      match e
      case Call(op, at) => (if Compared(op, nonces) then [RedisStep(keys, prefix, op, at).1] else []) + rest
      case Drop(_, _) => rest
  }

  /** Every call of a run keeps the agreement on challenges and tokens, and their answers. */
  lemma {:induction false} RunsAgree(m: State, keys: Keys, prefix: string, t: int, events: seq<Event>)
    requires Agree(m, keys, prefix, t) && OneClock(events, t)
    ensures RedisAnswers(keys, prefix, events, false) == MemoryAnswers(m, Calls(events), false)
    decreases |events|
  {
    if events != [] {
      var e, rest := events[0], events[1..];
      match e
      case Drop(key, at) =>
        DropKeepsAgreement(m, keys, prefix, t, key, at);
        RunsAgree(m, Apply(keys, prefix, e), prefix, at, rest);
        assert Calls(events) == Calls(rest);
      case Call(op, at) =>
        CallKeepsAgreement(m, keys, prefix, t, op, at);
        RunsAgree(Step(m, op).0, RedisStep(keys, prefix, op, at).0, prefix, at, rest);
        assert Calls(events) == [op] + Calls(rest);
        assert ([op] + Calls(rest))[1..] == Calls(rest);
    }
  }

  lemma EmptyStoresAgree(prefix: string, t: int, expiry: string -> int)
    ensures Agree(EMPTY, map[], prefix, t) && NoncesAgree(EMPTY, map[], prefix, t, expiry)
  {
  }

  /**
   * Live-entry simulation: under one nondecreasing clock, and with Redis dropping due keys at any
   * moment, both stores answer every TakeChallenge and ConsumeToken alike.
   */
  lemma {:induction false} RedisSimulatesMemory(prefix: string, t: int, events: seq<Event>)
    requires OneClock(events, t)
    ensures RedisAnswers(map[], prefix, events, false) == MemoryAnswers(EMPTY, Calls(events), false)
  {
    EmptyStoresAgree(prefix, t, _ => 0);
    RunsAgree(EMPTY, map[], prefix, t, events);
  }

  // ----- claims -----

  predicate ClaimsCarryExpiry(events: seq<Event>, expiry: string -> int) {
    forall i :: 0 <= i < |events| && events[i].Call? ==> CarriesExpiry(events[i].op, expiry)
  }

  /** No claim of the run comes from its expiry on while Redis still holds the key. */
  predicate NoLateHeld(keys: Keys, prefix: string, events: seq<Event>, expiry: string -> int)
    decreases |events|
  {
    events != [] ==>
      && !LateHeld(keys, prefix, events[0], expiry)
      && NoLateHeld(Apply(keys, prefix, events[0]), prefix, events[1..], expiry)
  }

  lemma {:induction false} AnswersAgreeIff(m: State, keys: Keys, prefix: string, t: int, events: seq<Event>,
                                           expiry: string -> int)
    requires Agree(m, keys, prefix, t) && NoncesAgree(m, keys, prefix, t, expiry)
    requires OneClock(events, t) && ClaimsCarryExpiry(events, expiry)
    ensures RedisAnswers(keys, prefix, events, true) == MemoryAnswers(m, Calls(events), true)
       <==> NoLateHeld(keys, prefix, events, expiry)
    decreases |events|
  {
    if events != [] {
      var e, rest := events[0], events[1..];
      assert ClaimsCarryExpiry(rest, expiry) by { assert forall i :: 0 <= i < |rest| ==> rest[i] == events[i + 1]; }
      match e
      case Drop(key, at) =>
        DropKeepsAgreement(m, keys, prefix, t, key, at);
        DropKeepsNonces(m, keys, prefix, t, key, at, expiry);
        AnswersAgreeIff(m, Apply(keys, prefix, e), prefix, at, rest, expiry);
        assert Calls(events) == Calls(rest);
      case Call(op, at) =>
        CallAnswersIff(m, keys, prefix, t, op, at, rest, expiry);
        assert Calls(events) == [op] + Calls(rest);
        assert ([op] + Calls(rest))[1..] == Calls(rest);
        var n, r := Step(m, op).0, RedisStep(keys, prefix, op, at).0;
        AnswersAgreeIff(n, r, prefix, at, rest, expiry);
        PrependIff(RedisStep(keys, prefix, op, at).1, Step(m, op).1,
                   RedisAnswers(r, prefix, rest, true), MemoryAnswers(n, Calls(rest), true));
    }
  }

  lemma CallAnswersIff(m: State, keys: Keys, prefix: string, t: int, op: Op, at: int, rest: seq<Event>,
                       expiry: string -> int)
    requires Agree(m, keys, prefix, t) && NoncesAgree(m, keys, prefix, t, expiry)
    requires t <= at && Stamped(op, at) && CarriesExpiry(op, expiry)
    ensures var n, r := Step(m, op).0, RedisStep(keys, prefix, op, at).0;
      Agree(n, r, prefix, at) && NoncesAgree(n, r, prefix, at, expiry)
    ensures Step(m, op).1 == RedisStep(keys, prefix, op, at).1 <==> !LateHeld(keys, prefix, Call(op, at), expiry)
  {
    CallKeepsAgreement(m, keys, prefix, t, op, at);
    CallKeepsNonces(m, keys, prefix, t, op, at, expiry);
  }

  /**
   * Where the stores part, exactly: over every run under one nondecreasing clock, with Redis dropping due keys
   * at any moment and every claim on a key carrying one expiry, all answers agree, those of ClaimNonce included,
   * if and only if no claim comes from its expiry on while Redis still holds the key.
   */
  lemma StoresAgreeIff(prefix: string, t: int, events: seq<Event>, expiry: string -> int)
    requires OneClock(events, t) && ClaimsCarryExpiry(events, expiry)
    ensures RedisAnswers(map[], prefix, events, true) == MemoryAnswers(EMPTY, Calls(events), true)
       <==> NoLateHeld(map[], prefix, events, expiry)
  {
    EmptyStoresAgree(prefix, t, expiry);
    AnswersAgreeIff(EMPTY, map[], prefix, t, events, expiry);
  }

  /** Every claim comes strictly before its key's expiry. */
  predicate ClaimsInTime(events: seq<Event>, expiry: string -> int) {
    forall i :: 0 <= i < |events| && events[i].Call? && events[i].op.ClaimNonce? ==>
      events[i].at < expiry(events[i].op.key)
  }

  lemma {:induction false} InTimeIsNotLate(keys: Keys, prefix: string, events: seq<Event>, expiry: string -> int)
    requires ClaimsInTime(events, expiry)
    ensures NoLateHeld(keys, prefix, events, expiry)
    decreases |events|
  {
    if events != [] {
      assert forall i :: 0 <= i < |events[1..]| ==> events[1..][i] == events[i + 1];
      InTimeIsNotLate(Apply(keys, prefix, events[0]), prefix, events[1..], expiry);
    }
  }

  /** So claims before the expiry are answered alike. */
  lemma RedisSimulatesMemoryInTime(prefix: string, t: int, events: seq<Event>, expiry: string -> int)
    requires OneClock(events, t) && ClaimsCarryExpiry(events, expiry) && ClaimsInTime(events, expiry)
    ensures RedisAnswers(map[], prefix, events, true) == MemoryAnswers(EMPTY, Calls(events), true)
  {
    InTimeIsNotLate(map[], prefix, events, expiry);
    StoresAgreeIff(prefix, t, events, expiry);
  }

  /** And two claims at one moment exactly before the expiry. */
  lemma RepeatedClaimAgreesIff(prefix: string, key: string, expiresAt: int, now: int)
    ensures var claim := Op.ClaimNonce(key, expiresAt, now);
      var events := [Call(claim, now)] + [Call(claim, now)];
      RedisAnswers(map[], prefix, events, true) == MemoryAnswers(EMPTY, Calls(events), true) <==> now < expiresAt
  {
    var e := Call(Op.ClaimNonce(key, expiresAt, now), now);
    var events, held := [e] + [e], Apply(map[], prefix, e);
    assert events[1..] == [e] && [e][1..] == [];
    assert OneClock([e], now) && OneClock(events, now);
    StoresAgreeIff(prefix, now, events, _ => expiresAt);
    assert NonceKey(prefix, key) in held;
    assert NoLateHeld(held, prefix, [e], _ => expiresAt) <==> now < expiresAt;
  }

  // ----- conservation, with keys dropped at any moment -----

  function Final(keys: Keys, prefix: string, events: seq<Event>): Keys
    decreases |events|
  {
    if events == [] then keys else Final(Apply(keys, prefix, events[0]), prefix, events[1..])
  }

  predicate GivesOut(keys: Keys, prefix: string, e: Event, token: string) {
    e.Call? && e.op.TakeChallenge? && e.op.token == token && RedisStep(keys, prefix, e.op, e.at).1.found.Some?
  }

  function RedisTakes(keys: Keys, prefix: string, events: seq<Event>, token: string): nat
    decreases |events|
  {
    if events == [] then 0
    else
      One(GivesOut(keys, prefix, events[0], token))
      + RedisTakes(Apply(keys, prefix, events[0]), prefix, events[1..], token)
  }

  predicate UsesUp(keys: Keys, prefix: string, e: Event, key: string) {
    && e.Call? && e.op.ConsumeToken? && e.op.key == key && !e.op.keep
    && RedisStep(keys, prefix, e.op, e.at).1.token.Some?
  }

  function RedisUses(keys: Keys, prefix: string, events: seq<Event>, key: string): nat
    decreases |events|
  {
    if events == [] then 0
    else
      One(UsesUp(keys, prefix, events[0], key))
      + RedisUses(Apply(keys, prefix, events[0]), prefix, events[1..], key)
  }

  lemma TakeStep(keys: Keys, prefix: string, e: Event, token: string)
    ensures var k := ChallengeKey(prefix, token);
      One(GivesOut(keys, prefix, e, token)) + One(k in Apply(keys, prefix, e))
        <= One(e.Call? && e.op.PutChallenge? && e.op.token == token) + One(k in keys)
  {
    if e.Call? {
      match e.op
      case PutChallenge(u, _) => KeysDiffer(prefix, token, u);
      case TakeChallenge(u, _) => KeysDiffer(prefix, token, u);
      case ClaimNonce(k, _, _) => KeysDiffer(prefix, token, k);
      case PutToken(k, _) => KeysDiffer(prefix, token, k);
      case ConsumeToken(k, _, _, _) => KeysDiffer(prefix, token, k);
      case _ =>
    }
  }

  lemma UseStep(keys: Keys, prefix: string, e: Event, key: string)
    ensures var k := TokenStoreKey(prefix, key);
      One(UsesUp(keys, prefix, e, key)) + One(k in Apply(keys, prefix, e))
        <= One(e.Call? && e.op.PutToken? && e.op.key == key) + One(k in keys)
  {
    if e.Call? {
      match e.op
      case PutChallenge(u, _) => KeysDiffer(prefix, u, key);
      case TakeChallenge(u, _) => KeysDiffer(prefix, u, key);
      case ClaimNonce(k, _, _) => KeysDiffer(prefix, k, key);
      case PutToken(k, _) => KeysDiffer(prefix, k, key);
      case ConsumeToken(k, _, _, _) => KeysDiffer(prefix, k, key);
      case _ =>
    }
  }

  lemma {:induction false} TakesWithin(keys: Keys, prefix: string, events: seq<Event>, token: string)
    ensures var k := ChallengeKey(prefix, token);
      RedisTakes(keys, prefix, events, token) + One(k in Final(keys, prefix, events))
        <= Puts(Calls(events), token) + One(k in keys)
    decreases |events|
  {
    if events != [] {
      TakeStep(keys, prefix, events[0], token);
      TakesWithin(Apply(keys, prefix, events[0]), prefix, events[1..], token);
      CallsStep(events);
    }
  }

  lemma CallsStep(events: seq<Event>)
    requires events != []
    ensures Calls(events) == (if events[0].Call? then [events[0].op] else []) + Calls(events[1..])
    ensures events[0].Call? ==> Calls(events)[0] == events[0].op && Calls(events)[1..] == Calls(events[1..])
    ensures !events[0].Call? ==> Calls(events) == Calls(events[1..])
  {
  }

  lemma {:induction false} UsesWithin(keys: Keys, prefix: string, events: seq<Event>, key: string)
    ensures var k := TokenStoreKey(prefix, key);
      RedisUses(keys, prefix, events, key) + One(k in Final(keys, prefix, events))
        <= TokenPuts(Calls(events), key) + One(k in keys)
    decreases |events|
  {
    if events != [] {
      UseStep(keys, prefix, events[0], key);
      UsesWithin(Apply(keys, prefix, events[0]), prefix, events[1..], key);
      CallsStep(events);
    }
  }

  /** On Redis as in memory: a challenge is given out at most once for every time it was put. */
  lemma RedisTakesAreCovered(prefix: string, events: seq<Event>, token: string)
    ensures RedisTakes(map[], prefix, events, token) <= Puts(Calls(events), token)
  {
    TakesWithin(map[], prefix, events, token);
  }

  /** And a token is used up at most once for every time it was put. */
  lemma RedisUsesAreCovered(prefix: string, events: seq<Event>, key: string)
    ensures RedisUses(map[], prefix, events, key) <= TokenPuts(Calls(events), key)
  {
    UsesWithin(map[], prefix, events, key);
  }
}
