/** The storage contract as a state machine: what one operation does and what whole runs keep. */
module Store {
  import opened Numerals

  datatype InstrumentationMeta = InstrumentationMeta(
    id: string, expectedVals: seq<int>, vars: seq<string>, blockAutomatedBrowsers: bool, expires: int)

  datatype ChallengeRecord = ChallengeRecord(
    count: nat, size: nat, difficulty: nat, scope: string, expires: int, instr: Option<InstrumentationMeta>)

  datatype TokenRecord = TokenRecord(scope: string, expires: int)

  datatype State = State(
    challenges: map<string, ChallengeRecord>, nonces: map<string, int>, tokens: map<string, TokenRecord>)

  datatype Op =
    | PutChallenge(token: string, challenge: ChallengeRecord)
    | TakeChallenge(token: string, now: int)
    | ClaimNonce(key: string, expiresAt: int, now: int)
    | PutToken(key: string, record: TokenRecord)
    | ConsumeToken(key: string, scope: string, now: int, keep: bool)
    | Cleanup(now: int)
    | Reset

  datatype Answer =
    | Done
    | Challenge(found: Option<ChallengeRecord>)
    | Claimed(ok: bool)
    | Consumed(token: Option<TokenRecord>)

  const EMPTY := State(map[], map[], map[])

  function Without<K(!new), V>(m: map<K, V>, key: K): (r: map<K, V>)
    ensures key !in r && forall k :: k != key ==> (k in r <==> k in m) && (k in r ==> r[k] == m[k])
  {
    map k | k in m && k != key :: m[k]
  }

  /** A check for the scope `wanted` lets this scope through; "" asks for none. */
  predicate ScopeAdmits(wanted: string, scope: string) {
    wanted == "" || scope == wanted
  }

  /** One operation on MemoryStore's maps. */
  function Step(s: State, op: Op): (State, Answer) {
    match op
    case PutChallenge(token, record) => (s.(challenges := s.challenges[token := record]), Done)
    case TakeChallenge(token, now) =>
      if token !in s.challenges then (s, Challenge(None))
      else
        var record := s.challenges[token];
        (s.(challenges := Without(s.challenges, token)),
         Challenge(if record.expires <= now then None else Some(record)))
    case ClaimNonce(key, expiresAt, now) =>
      if key in s.nonces && s.nonces[key] > now then (s, Claimed(false))
      else (s.(nonces := s.nonces[key := expiresAt]), Claimed(true))
    case PutToken(key, record) => (s.(tokens := s.tokens[key := record]), Done)
    case ConsumeToken(key, scope, now, keep) =>
      if key !in s.tokens then (s, Consumed(None))
      else
        var record := s.tokens[key];
        if record.expires <= now then (s.(tokens := Without(s.tokens, key)), Consumed(None))
        else if scope != "" && record.scope != scope then (s, Consumed(None))
        else (if keep then s else s.(tokens := Without(s.tokens, key)), Consumed(Some(record)))
    case Cleanup(now) =>
      (State(map k | k in s.challenges && s.challenges[k].expires > now :: s.challenges[k],
             map k | k in s.nonces && s.nonces[k] > now :: s.nonces[k],
             map k | k in s.tokens && s.tokens[k].expires > now :: s.tokens[k]), Done)
    case Reset => (EMPTY, Done)
  }

  function Final(s: State, ops: seq<Op>): State
    decreases |ops|
  {
    if ops == [] then s else Final(Step(s, ops[0]).0, ops[1..])
  }

  /** The answers of a run, without those of Cleanup. */
  function Answers(s: State, ops: seq<Op>): seq<Answer>
    decreases |ops|
  {
    if ops == [] then []
    else
      var (t, a) := Step(s, ops[0]);
      (if ops[0].Cleanup? then [] else [a]) + Answers(t, ops[1..])
  }

  // ----- cleanup is invisible -----

  function WithoutCleanups(ops: seq<Op>): seq<Op> {
    if ops == [] then []
    else (if ops[0].Cleanup? then [] else [ops[0]]) + WithoutCleanups(ops[1..])
  }

  /** The time an operation carries; the Put operations and Reset carry none. */
  function TimeOf(op: Op): Option<int> {
    match op
    case TakeChallenge(_, now) => Some(now)
    case ClaimNonce(_, _, now) => Some(now)
    case ConsumeToken(_, _, now, _) => Some(now)
    case Cleanup(now) => Some(now)
    case _ => None
  }

  /** The latest of the cleanups so far, if there was one. */
  function Later(bound: Option<int>, now: int): Option<int> {
    match bound
    case None => Some(now)
    case Some(t) => Some(if t < now then now else t)
  }

  /** No operation carries an earlier time than a cleanup before it; among themselves they may. */
  predicate FollowsCleanups(ops: seq<Op>, bound: Option<int>) {
    if ops == [] then true
    else if ops[0].Cleanup? then FollowsCleanups(ops[1..], Later(bound, ops[0].now))
    else NotBefore(ops[0], bound) && FollowsCleanups(ops[1..], bound)
  }

  predicate NotBefore(op: Op, bound: Option<int>) {
    !op.Cleanup? && (bound.Some? && TimeOf(op).Some? ==> bound.value <= TimeOf(op).value)
  }

  /** Expired at the time of the latest cleanup. */
  predicate Dead(expires: int, bound: Option<int>) {
    bound.Some? && expires <= bound.value
  }

  /** The same entry in both maps, or no entry in either that outlives the latest cleanup. */
  predicate SameChallenge(a: State, b: State, bound: Option<int>, k: string) {
    || (k in a.challenges && k in b.challenges && a.challenges[k] == b.challenges[k])
    || ((k in a.challenges ==> Dead(a.challenges[k].expires, bound)) &&
        (k in b.challenges ==> Dead(b.challenges[k].expires, bound)))
  }

  predicate SameNonce(a: State, b: State, bound: Option<int>, k: string) {
    || (k in a.nonces && k in b.nonces && a.nonces[k] == b.nonces[k])
    || ((k in a.nonces ==> Dead(a.nonces[k], bound)) && (k in b.nonces ==> Dead(b.nonces[k], bound)))
  }

  predicate SameToken(a: State, b: State, bound: Option<int>, k: string) {
    || (k in a.tokens && k in b.tokens && a.tokens[k] == b.tokens[k])
    || ((k in a.tokens ==> Dead(a.tokens[k].expires, bound)) && (k in b.tokens ==> Dead(b.tokens[k].expires, bound)))
  }

  ghost predicate SameLive(a: State, b: State, bound: Option<int>) {
    && (forall k :: SameChallenge(a, b, bound, k))
    && (forall k :: SameNonce(a, b, bound, k))
    && (forall k :: SameToken(a, b, bound, k))
  }

  /** Dropping dead entries changes nothing that outlives the cleanup. */
  lemma CleanupKeepsLive(a: State, b: State, bound: Option<int>, now: int)
    requires SameLive(a, b, bound)
    ensures SameLive(Step(a, Cleanup(now)).0, b, Later(bound, now))
  {
    var c, next := Step(a, Cleanup(now)).0, Later(bound, now);
    forall k ensures SameChallenge(c, b, next, k) { assert SameChallenge(a, b, bound, k); }
    forall k ensures SameNonce(c, b, next, k) { assert SameNonce(a, b, bound, k); }
    forall k ensures SameToken(c, b, next, k) { assert SameToken(a, b, bound, k); }
  }

  lemma StepChallenge(a: State, b: State, bound: Option<int>, op: Op, k: string)
    requires SameChallenge(a, b, bound, k) && NotBefore(op, bound)
    ensures SameChallenge(Step(a, op).0, Step(b, op).0, bound, k)
    ensures op.TakeChallenge? && op.token == k ==> Step(a, op).1 == Step(b, op).1
  {
  }

  lemma StepNonce(a: State, b: State, bound: Option<int>, op: Op, k: string)
    requires SameNonce(a, b, bound, k) && NotBefore(op, bound)
    ensures SameNonce(Step(a, op).0, Step(b, op).0, bound, k)
    ensures op.ClaimNonce? && op.key == k ==> Step(a, op).1 == Step(b, op).1
  {
  }

  lemma StepToken(a: State, b: State, bound: Option<int>, op: Op, k: string)
    requires SameToken(a, b, bound, k) && NotBefore(op, bound)
    ensures SameToken(Step(a, op).0, Step(b, op).0, bound, k)
    ensures op.ConsumeToken? && op.key == k ==> Step(a, op).1 == Step(b, op).1
  {
  }

  /** Every other operation answers alike in both states and keeps them alike. */
  lemma StepKeepsLive(a: State, b: State, bound: Option<int>, op: Op)
    requires SameLive(a, b, bound) && NotBefore(op, bound)
    ensures Step(a, op).1 == Step(b, op).1
    ensures SameLive(Step(a, op).0, Step(b, op).0, bound)
  {
    var c, d := Step(a, op).0, Step(b, op).0;
    forall k ensures SameChallenge(c, d, bound, k) { StepChallenge(a, b, bound, op, k); }
    forall k ensures SameNonce(c, d, bound, k) { StepNonce(a, b, bound, op, k); }
    forall k ensures SameToken(c, d, bound, k) { StepToken(a, b, bound, op, k); }
    match op {
      case TakeChallenge(k, _) => StepChallenge(a, b, bound, op, k);
      case ClaimNonce(k, _, _) => StepNonce(a, b, bound, op, k);
      case ConsumeToken(k, _, _, _) => StepToken(a, b, bound, op, k);
      case _ =>
    }
  }

  lemma {:induction false} CleanupsDoNotShow(a: State, b: State, bound: Option<int>, ops: seq<Op>)
    requires SameLive(a, b, bound) && FollowsCleanups(ops, bound)
    ensures Answers(a, ops) == Answers(b, WithoutCleanups(ops))
    decreases |ops|
  {
    if ops != [] {
      var op, rest := ops[0], ops[1..];
      var strip := WithoutCleanups(rest);
      if op.Cleanup? {
        CleanupKeepsLive(a, b, bound, op.now);
        CleanupsDoNotShow(Step(a, op).0, b, Later(bound, op.now), rest);
        assert WithoutCleanups(ops) == strip;
      } else {
        StepKeepsLive(a, b, bound, op);
        CleanupsDoNotShow(Step(a, op).0, Step(b, op).0, bound, rest);
        assert WithoutCleanups(ops) == [op] + strip;
        assert ([op] + strip)[1..] == strip;
      }
    }
  }

  /**
   * Cleanup is invisible: two runs that differ only in the Cleanup calls put into them give the same answers, if
   * no operation carries an earlier time than a cleanup before it.
   */
  lemma {:induction false} CleanupIsInvisible(s: State, ops: seq<Op>, more: seq<Op>)
    requires FollowsCleanups(ops, None) && FollowsCleanups(more, None)
    requires WithoutCleanups(ops) == WithoutCleanups(more)
    ensures Answers(s, ops) == Answers(s, more)
  {
    forall k ensures SameChallenge(s, s, None, k) && SameNonce(s, s, None, k) && SameToken(s, s, None, k) {}
    CleanupsDoNotShow(s, s, None, ops);
    CleanupsDoNotShow(s, s, None, more);
  }

  // ----- conservation -----

  function One(b: bool): nat {
    if b then 1 else 0
  }

  function Puts(ops: seq<Op>, token: string): nat {
    if ops == [] then 0
    else One(ops[0].PutChallenge? && ops[0].token == token) + Puts(ops[1..], token)
  }

  function Takes(s: State, ops: seq<Op>, token: string): nat
    decreases |ops|
  {
    if ops == [] then 0
    else
      var (u, a) := Step(s, ops[0]);
      One(ops[0].TakeChallenge? && ops[0].token == token && a.found.Some?) + Takes(u, ops[1..], token)
  }

  function TokenPuts(ops: seq<Op>, key: string): nat {
    if ops == [] then 0
    else One(ops[0].PutToken? && ops[0].key == key) + TokenPuts(ops[1..], key)
  }

  /** Successful consumptions that do not keep the token. */
  function Uses(s: State, ops: seq<Op>, key: string): nat
    decreases |ops|
  {
    if ops == [] then 0
    else
      var (u, a) := Step(s, ops[0]);
      One(ops[0].ConsumeToken? && ops[0].key == key && !ops[0].keep && a.token.Some?) + Uses(u, ops[1..], key)
  }

  /** A stored challenge is given out at most once for every time it was put, at whatever times. */
  lemma {:induction false} TakesAreCovered(s: State, ops: seq<Op>, token: string)
    ensures Takes(s, ops, token) + One(token in Final(s, ops).challenges)
         <= Puts(ops, token) + One(token in s.challenges)
    decreases |ops|
  {
    if ops != [] {
      TakesAreCovered(Step(s, ops[0]).0, ops[1..], token);
    }
  }

  /** A verification token is used up at most once for every time it was put. */
  lemma {:induction false} UsesAreCovered(s: State, ops: seq<Op>, key: string)
    ensures Uses(s, ops, key) + One(key in Final(s, ops).tokens) <= TokenPuts(ops, key) + One(key in s.tokens)
    decreases |ops|
  {
    if ops != [] {
      UsesAreCovered(Step(s, ops[0]).0, ops[1..], key);
    }
  }
}
