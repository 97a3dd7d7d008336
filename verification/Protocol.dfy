/**
 * Redemption and validation as a step-wise protocol. Any number of requests interleave; between a
 * request's clock read, its nonce claim and its token issue, anything else may happen.
 */
module Protocol {
  import opened Store

  /** What a signed challenge says; key is the nonce key its signature determines. */
  datatype Claims = Claims(exp: int, iat: int, scope: string)

  datatype Origin = Signed(key: string) | Stored(token: string)

  /** A request between its steps. `wanted` is the scope the redemption asked for, "" for any. */
  datatype Session =
    | Checked(key: string, wanted: string, now: int)
    | Won(origin: Origin, wanted: string, scope: string, now: int)

  /** Where a verification token came from. */
  datatype Provenance = Provenance(origin: Origin, wanted: string)

  datatype World = World(
    store: State,
    minted: map<string, Claims>,
    put: set<(string, string)>, // token and scope of every stored challenge ever put
    sessions: map<nat, Session>,
    provenance: map<string, Provenance>)

  datatype Event =
    | MintSigned(key: string, claims: Claims)
    | MintStored(token: string, record: ChallengeRecord)
    | BeginSigned(request: nat, key: string, wanted: string, now: int)
    | Claim(request: nat)
    | RedeemStored(request: nat, token: string, wanted: string, now: int, solved: bool)
    | Issue(request: nat, tokenKey: string, ttl: nat)
    | Validate(tokenKey: string, scope: string, now: int, keep: bool)
    | Clean(now: int)

  const START := World(EMPTY, map[], {}, map[], map[])

  /** One step of one request, or of the clock-driven cleanup. A step that does not apply changes nothing. */
  function Next(w: World, e: Event): World {
    match e
    case MintSigned(key, claims) =>
      // signatures do not collide: a key stands for one set of claims
      if key in w.minted then w else w.(minted := w.minted[key := claims])
    case MintStored(token, record) =>
      w.(store := Step(w.store, PutChallenge(token, record)).0, put := w.put + {(token, record.scope)})
    case BeginSigned(request, key, wanted, now) =>
      // jwtVerify succeeds only on minted tokens; scope, clock and expiry are checked, solutions verified
      if request in w.sessions || key !in w.minted then w
      else
        var c := w.minted[key];
        if wanted != "" && c.scope != wanted then w
        else if c.exp == 0 || c.exp < now then w
        else w.(sessions := w.sessions[request := Checked(key, wanted, now)])
    case Claim(request) =>
      if request !in w.sessions || !w.sessions[request].Checked? then w
      else
        var s := w.sessions[request];
        if s.key !in w.minted then w
        else
          var c := w.minted[s.key];
          var (store, answer) := Step(w.store, ClaimNonce("nonce:" + s.key, c.exp, s.now));
          if answer == Claimed(true)
          then w.(store := store, sessions := w.sessions[request := Won(Signed(s.key), s.wanted, c.scope, s.now)])
          else w.(store := store, sessions := Without(w.sessions, request))
    case RedeemStored(request, token, wanted, now, solved) =>
      if request in w.sessions then w
      else
        var (store, answer) := Step(w.store, TakeChallenge(token, now));
        (match answer
        case Challenge(Some(record)) =>
          if (wanted != "" && record.scope != wanted) || !solved then w.(store := store)
          else w.(store := store, sessions := w.sessions[request := Won(Stored(token), wanted, record.scope, now)])
        case _ => w.(store := store))
    case Issue(request, tokenKey, ttl) =>
      if request !in w.sessions || !w.sessions[request].Won? then w
      else
        var s := w.sessions[request];
        w.(store := Step(w.store, PutToken(tokenKey, TokenRecord(s.scope, s.now + ttl))).0,
           sessions := Without(w.sessions, request),
           provenance := w.provenance[tokenKey := Provenance(s.origin, s.wanted)])
    case Validate(tokenKey, scope, now, keep) =>
      w.(store := Step(w.store, ConsumeToken(tokenKey, scope, now, keep)).0)
    case Clean(now) => w.(store := Step(w.store, Cleanup(now)).0)
  }

  function Run(w: World, events: seq<Event>): World
    decreases |events|
  {
    if events == [] then w else Run(Next(w, events[0]), events[1..])
  }

  // ----- single use of a signed challenge -----

  /** The event is a claim on this key, carrying the time its request read. */
  predicate IsClaimOn(w: World, e: Event, key: string) {
    && e.Claim? && e.request in w.sessions && w.sessions[e.request].Checked?
    && w.sessions[e.request].key == key && key in w.minted
  }

  /** The event turns a request into a winner for this origin. */
  predicate Wins(w: World, e: Event, origin: Origin) {
    var v := Next(w, e);
    match e
    case Claim(q) =>
      && q in w.sessions && w.sessions[q].Checked?
      && q in v.sessions && v.sessions[q].Won? && v.sessions[q].origin == origin
    case RedeemStored(q, _, _, _, _) =>
      && q !in w.sessions
      && q in v.sessions && v.sessions[q].Won? && v.sessions[q].origin == origin
    case _ => false
  }

  function WinCount(w: World, events: seq<Event>, origin: Origin): nat
    decreases |events|
  {
    if events == [] then 0 else One(Wins(w, events[0], origin)) + WinCount(Next(w, events[0]), events[1..], origin)
  }

  /**
   * After the first claim on the key, every further one carries a time before the expiry and comes
   * before any cleanup at or past the expiry.
   */
  predicate ClaimsAreTimely(w: World, events: seq<Event>, key: string, exp: int, claimed: bool, cleaned: bool)
    decreases |events|
  {
    if events == [] then true
    else
      var e, v := events[0], Next(w, events[0]);
      if IsClaimOn(w, e, key) then
        && (claimed ==> w.sessions[e.request].now < exp && !cleaned)
        && ClaimsAreTimely(v, events[1..], key, exp, true, cleaned)
      else
        ClaimsAreTimely(v, events[1..], key, exp, claimed, cleaned || (claimed && e.Clean? && exp <= e.now))
  }

  /** What the nonce map says about the key. */
  predicate NonceHistory(w: World, key: string, exp: int, claimed: bool, cleaned: bool) {
    var n := "nonce:" + key;
    && (key in w.minted ==> w.minted[key].exp == exp)
    && (if claimed && !cleaned then n in w.store.nonces && w.store.nonces[n] == exp else n !in w.store.nonces)
    && (claimed ==> key in w.minted)
    && (cleaned ==> claimed)
  }

  lemma NonceKeysDiffer(a: string, b: string)
    ensures "nonce:" + a == "nonce:" + b <==> a == b
  {
    assert ("nonce:" + a)[6..] == a && ("nonce:" + b)[6..] == b;
  }

  lemma ClaimStep(w: World, e: Event, key: string, exp: int, claimed: bool, cleaned: bool)
    requires NonceHistory(w, key, exp, claimed, cleaned) && IsClaimOn(w, e, key)
    ensures Wins(w, e, Signed(key)) <==> !claimed || cleaned || exp <= w.sessions[e.request].now
    ensures !claimed || !Wins(w, e, Signed(key)) ==> NonceHistory(Next(w, e), key, exp, true, cleaned)
  {
  }

  lemma OtherStep(w: World, e: Event, key: string, exp: int, claimed: bool, cleaned: bool)
    requires NonceHistory(w, key, exp, claimed, cleaned) && !IsClaimOn(w, e, key)
    requires e.MintSigned? && e.key == key ==> e.claims.exp == exp
    ensures !Wins(w, e, Signed(key))
    ensures NonceHistory(Next(w, e), key, exp, claimed, cleaned || (claimed && e.Clean? && exp <= e.now))
  {
    if e.Claim? && e.request in w.sessions && w.sessions[e.request].Checked? {
      NonceKeysDiffer(w.sessions[e.request].key, key);
    }
  }

  predicate MintsWithExpiry(events: seq<Event>, key: string, exp: int) {
    forall i :: 0 <= i < |events| && events[i].MintSigned? && events[i].key == key ==> events[i].claims.exp == exp
  }

  lemma {:induction false} WinsIffTimely(w: World, events: seq<Event>, key: string, exp: int, claimed: bool,
                                         cleaned: bool)
    requires NonceHistory(w, key, exp, claimed, cleaned) && MintsWithExpiry(events, key, exp)
    ensures WinCount(w, events, Signed(key)) <= One(!claimed)
       <==> ClaimsAreTimely(w, events, key, exp, claimed, cleaned)
    decreases |events|
  {
    if events != [] {
      var e, rest := events[0], events[1..];
      assert MintsWithExpiry(rest, key, exp);
      if IsClaimOn(w, e, key) {
        ClaimStep(w, e, key, exp, claimed, cleaned);
        if !claimed || !Wins(w, e, Signed(key)) {
          WinsIffTimely(Next(w, e), rest, key, exp, true, cleaned);
        }
      } else {
        OtherStep(w, e, key, exp, claimed, cleaned);
        WinsIffTimely(Next(w, e), rest, key, exp, claimed, cleaned || (claimed && e.Clean? && exp <= e.now));
      }
    }
  }

  /**
   * Single use, exactly: over every interleaving of any number of requests, a signed challenge is won
   * at most once if and only if its later claims are timely.
   */
  lemma {:induction false} SingleUseIff(events: seq<Event>, key: string, exp: int)
    requires MintsWithExpiry(events, key, exp)
    ensures WinCount(START, events, Signed(key)) <= 1 <==> ClaimsAreTimely(START, events, key, exp, false, false)
  {
    WinsIffTimely(START, events, key, exp, false, false);
  }

  // ----- a condition on the run that is easier to check -----

  /** No request that presents the key reads the clock in the very millisecond of its expiry. */
  predicate NoReadAtExpiry(events: seq<Event>, key: string, exp: int) {
    forall i :: 0 <= i < |events| && events[i].BeginSigned? && events[i].key == key ==> events[i].now != exp
  }

  predicate OpenOn(w: World, key: string) {
    exists q :: q in w.sessions && w.sessions[q].Checked? && w.sessions[q].key == key
  }

  /** When a cleanup at or past the expiry runs, no request on the key is between its check and its claim. */
  predicate CalmCleanups(w: World, events: seq<Event>, key: string, exp: int)
    decreases |events|
  {
    if events == [] then true
    else
      && (events[0].Clean? && exp <= events[0].now ==> !OpenOn(w, key))
      && CalmCleanups(Next(w, events[0]), events[1..], key, exp)
  }

  /**
   * Once a cleanup at or past the expiry has run, every request that presents the key reads a later time. A
   * cleanup may well run after a request has read a later time than its own.
   */
  predicate ReadsFollowCleanups(events: seq<Event>, key: string, exp: int, late: bool) {
    if events == [] then true
    else
      var e := events[0];
      && (late && e.BeginSigned? && e.key == key ==> exp < e.now)
      && ReadsFollowCleanups(events[1..], key, exp, late || (e.Clean? && exp <= e.now))
  }

  predicate SessionsReadBefore(w: World, key: string, exp: int) {
    forall q :: q in w.sessions && w.sessions[q].Checked? && w.sessions[q].key == key ==> w.sessions[q].now < exp
  }

  /** If the key is minted, then with this expiry. */
  predicate MintedWith(w: World, key: string, exp: int) {
    key in w.minted ==> w.minted[key].exp == exp
  }

  /** A request past the expiry is refused, so it opens no session. */
  lemma SessionsStep(w: World, e: Event, key: string, exp: int)
    requires SessionsReadBefore(w, key, exp) && MintedWith(w, key, exp)
    requires e.BeginSigned? && e.key == key ==> e.now != exp
    requires e.MintSigned? && e.key == key ==> e.claims.exp == exp
    ensures SessionsReadBefore(Next(w, e), key, exp) && MintedWith(Next(w, e), key, exp)
    ensures OpenOn(Next(w, e), key) ==> OpenOn(w, key) || (e.BeginSigned? && e.key == key && e.now < exp)
  {
    var v := Next(w, e);
    forall q | q in v.sessions && v.sessions[q].Checked? && v.sessions[q].key == key
      ensures v.sessions[q].now < exp
      ensures OpenOn(w, key) || (e.BeginSigned? && e.key == key && e.now < exp)
    {
      if q in w.sessions {
        assert v.sessions[q] == w.sessions[q];
      }
    }
  }

  lemma {:induction false} CalmIsTimely(w: World, events: seq<Event>, key: string, exp: int, claimed: bool,
                                        cleaned: bool, late: bool)
    requires MintsWithExpiry(events, key, exp) && NoReadAtExpiry(events, key, exp)
    requires ReadsFollowCleanups(events, key, exp, late) && CalmCleanups(w, events, key, exp)
    requires SessionsReadBefore(w, key, exp) && MintedWith(w, key, exp)
    requires (cleaned ==> late) && (late ==> !OpenOn(w, key))
    ensures ClaimsAreTimely(w, events, key, exp, claimed, cleaned)
    decreases |events|
  {
    if events != [] {
      var e, rest := events[0], events[1..];
      assert forall i :: 0 <= i < |rest| ==> rest[i] == events[i + 1];
      SessionsStep(w, e, key, exp);
      var claimed', cleaned' := claimed || IsClaimOn(w, e, key), cleaned || (claimed && e.Clean? && exp <= e.now);
      CalmIsTimely(Next(w, e), rest, key, exp, claimed', cleaned', late || (e.Clean? && exp <= e.now));
    }
  }

  // ----- from winning to issuing -----

  function Pending(w: World, origin: Origin): set<nat> {
    set q | q in w.sessions && w.sessions[q].Won? && w.sessions[q].origin == origin
  }

  predicate Issues(w: World, e: Event, origin: Origin) {
    e.Issue? && e.request in Pending(w, origin)
  }

  function IssueCount(w: World, events: seq<Event>, origin: Origin): nat
    decreases |events|
  {
    if events == [] then 0 else One(Issues(w, events[0], origin)) + IssueCount(Next(w, events[0]), events[1..], origin)
  }

  lemma PendingAfterWin(w: World, e: Event, origin: Origin)
    requires Wins(w, e, origin)
    ensures Pending(Next(w, e), origin) == Pending(w, origin) + {e.request} && e.request !in Pending(w, origin)
  {
  }

  lemma PendingAfterIssue(w: World, e: Event, origin: Origin)
    requires Issues(w, e, origin)
    ensures Pending(Next(w, e), origin) == Pending(w, origin) - {e.request}
  {
  }

  lemma PendingOtherwise(w: World, e: Event, origin: Origin)
    requires !Wins(w, e, origin) && !Issues(w, e, origin)
    ensures Pending(Next(w, e), origin) == Pending(w, origin)
  {
  }

  lemma PendingStep(w: World, e: Event, origin: Origin)
    ensures |Pending(Next(w, e), origin)| + One(Issues(w, e, origin)) == |Pending(w, origin)| + One(Wins(w, e, origin))
  {
    if Wins(w, e, origin) {
      PendingAfterWin(w, e, origin);
      assert !Issues(w, e, origin);
    } else if Issues(w, e, origin) {
      PendingAfterIssue(w, e, origin);
    } else {
      PendingOtherwise(w, e, origin);
    }
  }

  /** Every issued token was won, and no win issues two. */
  lemma {:induction false} IssuesAreWon(w: World, events: seq<Event>, origin: Origin)
    ensures IssueCount(w, events, origin) + |Pending(Run(w, events), origin)|
         == WinCount(w, events, origin) + |Pending(w, origin)|
    decreases |events|
  {
    if events != [] {
      PendingStep(w, events[0], origin);
      IssuesAreWon(Next(w, events[0]), events[1..], origin);
    }
  }

  /** Over every interleaving, at most one token from a signed challenge whose later claims are timely. */
  lemma AtMostOneTokenIfTimely(events: seq<Event>, key: string, exp: int)
    requires MintsWithExpiry(events, key, exp) && ClaimsAreTimely(START, events, key, exp, false, false)
    ensures IssueCount(START, events, Signed(key)) <= 1
  {
    SingleUseIff(events, key, exp);
    IssuesAreWon(START, events, Signed(key));
    assert Pending(START, Signed(key)) == {};
  }

  /**
   * At most one token when no request reads the clock at the very expiry, late cleanups do not overtake a
   * request that has passed its check, and requests after such a cleanup read later times. Requests after the
   * expiry are welcome: they are refused.
   */
  lemma AtMostOneToken(events: seq<Event>, key: string, exp: int)
    requires MintsWithExpiry(events, key, exp) && NoReadAtExpiry(events, key, exp)
    requires ReadsFollowCleanups(events, key, exp, false) && CalmCleanups(START, events, key, exp)
    ensures IssueCount(START, events, Signed(key)) <= 1
  {
    CalmIsTimely(START, events, key, exp, false, false, false);
    AtMostOneTokenIfTimely(events, key, exp);
  }

  // ----- stored challenges and tokens -----

  function StoredCount(events: seq<Event>, token: string): nat {
    if events == [] then 0 else One(events[0].MintStored? && events[0].token == token) + StoredCount(events[1..], token)
  }

  lemma StoredWinStep(w: World, e: Event, token: string)
    ensures One(Wins(w, e, Stored(token))) + One(token in Next(w, e).store.challenges)
         <= One(e.MintStored? && e.token == token) + One(token in w.store.challenges)
  {
  }

  lemma {:induction false} StoredWinsAreCovered(w: World, events: seq<Event>, token: string)
    ensures WinCount(w, events, Stored(token)) <= StoredCount(events, token) + One(token in w.store.challenges)
    decreases |events|
  {
    if events != [] {
      StoredWinStep(w, events[0], token);
      StoredWinsAreCovered(Next(w, events[0]), events[1..], token);
    }
  }

  /** A stored challenge leads to at most one token for every time it was stored, whatever the times. */
  lemma {:induction false} StoredChallengeSingleUse(events: seq<Event>, token: string)
    ensures IssueCount(START, events, Stored(token)) <= StoredCount(events, token)
  {
    StoredWinsAreCovered(START, events, token);
    IssuesAreWon(START, events, Stored(token));
    assert Pending(START, Stored(token)) == {};
  }

  /** Validate answers true. */
  predicate Validates(w: World, e: Event) {
    e.Validate? && Step(w.store, ConsumeToken(e.tokenKey, e.scope, e.now, e.keep)).1.token.Some?
  }

  function UseCount(w: World, events: seq<Event>, tokenKey: string): nat
    decreases |events|
  {
    if events == [] then 0
    else
      One(Validates(w, events[0]) && !events[0].keep && events[0].tokenKey == tokenKey)
      + UseCount(Next(w, events[0]), events[1..], tokenKey)
  }

  /** The event stores a token under this key. */
  predicate IssuesUnder(w: World, e: Event, tokenKey: string) {
    e.Issue? && e.tokenKey == tokenKey && e.request in w.sessions && w.sessions[e.request].Won?
  }

  function PutCount(w: World, events: seq<Event>, tokenKey: string): nat
    decreases |events|
  {
    if events == [] then 0
    else
      One(IssuesUnder(w, events[0], tokenKey))
      + PutCount(Next(w, events[0]), events[1..], tokenKey)
  }

  lemma TokenUseStep(w: World, e: Event, tokenKey: string)
    ensures One(Validates(w, e) && !e.keep && e.tokenKey == tokenKey) + One(tokenKey in Next(w, e).store.tokens)
         <= One(IssuesUnder(w, e, tokenKey)) + One(tokenKey in w.store.tokens)
  {
  }

  /** A verification token is used up at most once for every time its key was issued. */
  lemma {:induction false} TokenSingleUse(w: World, events: seq<Event>, tokenKey: string)
    ensures UseCount(w, events, tokenKey) <= PutCount(w, events, tokenKey) + One(tokenKey in w.store.tokens)
    decreases |events|
  {
    if events != [] {
      var v := Next(w, events[0]);
      TokenUseStep(w, events[0], tokenKey);
      TokenSingleUse(v, events[1..], tokenKey);
    }
  }

  // ----- scope provenance -----

  /** The origin's challenge carried this scope. */
  predicate CarriesScope(w: World, origin: Origin, scope: string) {
    match origin
    case Signed(key) => key in w.minted && w.minted[key].scope == scope
    case Stored(token) => (token, scope) in w.put
  }

  predicate SessionInv(w: World, s: Session) {
    match s
    case Checked(key, wanted, _) => key in w.minted && ScopeAdmits(wanted, w.minted[key].scope)
    case Won(origin, wanted, scope, _) => CarriesScope(w, origin, scope) && ScopeAdmits(wanted, scope)
  }

  predicate TokenInv(w: World, k: string) {
    k in w.store.tokens ==>
      && k in w.provenance
      && CarriesScope(w, w.provenance[k].origin, w.store.tokens[k].scope)
      && ScopeAdmits(w.provenance[k].wanted, w.store.tokens[k].scope)
  }

  ghost predicate ScopeInv(w: World) {
    && (forall t :: t in w.store.challenges ==> (t, w.store.challenges[t].scope) in w.put)
    && (forall q :: q in w.sessions ==> SessionInv(w, w.sessions[q]))
    && (forall k :: TokenInv(w, k))
  }

  lemma ScopesGrow(w: World, e: Event)
    ensures forall key :: key in w.minted ==> key in Next(w, e).minted && Next(w, e).minted[key] == w.minted[key]
    ensures w.put <= Next(w, e).put
  {
  }

  lemma SessionStep(w: World, e: Event, q: nat)
    requires ScopeInv(w) && q in Next(w, e).sessions
    ensures SessionInv(Next(w, e), Next(w, e).sessions[q])
  {
    ScopesGrow(w, e);
    if q in w.sessions {
      assert SessionInv(w, w.sessions[q]);
    }
  }

  lemma TokenInvStep(w: World, e: Event, k: string)
    requires ScopeInv(w)
    ensures TokenInv(Next(w, e), k)
  {
    ScopesGrow(w, e);
    assert TokenInv(w, k);
    if e.Issue? && e.request in w.sessions {
      assert SessionInv(w, w.sessions[e.request]);
    }
  }

  lemma ChallengeScopeStep(w: World, e: Event, t: string)
    requires ScopeInv(w) && t in Next(w, e).store.challenges
    ensures (t, Next(w, e).store.challenges[t].scope) in Next(w, e).put
  {
    assert t in w.store.challenges ==> (t, w.store.challenges[t].scope) in w.put;
  }

  lemma ScopeInvStep(w: World, e: Event)
    requires ScopeInv(w)
    ensures ScopeInv(Next(w, e))
  {
    var v := Next(w, e);
    forall t | t in v.store.challenges
      ensures (t, v.store.challenges[t].scope) in v.put
    {
      ChallengeScopeStep(w, e, t);
    }
    forall q | q in v.sessions ensures SessionInv(v, v.sessions[q]) { SessionStep(w, e, q); }
    forall k ensures TokenInv(v, k) { TokenInvStep(w, e, k); }
  }

  lemma {:induction false} ScopeInvHolds(w: World, events: seq<Event>)
    requires ScopeInv(w)
    ensures ScopeInv(Run(w, events))
    decreases |events|
  {
    if events != [] {
      ScopeInvStep(w, events[0]);
      ScopeInvHolds(Next(w, events[0]), events[1..]);
    }
  }

  /**
   * Scope provenance: in every reachable state, a Validate that asks for a scope and succeeds consumes a
   * token whose challenge carried that very scope, redeemed by a request that asked for it or for none.
   */
  lemma {:induction false} ValidatedScopeIsOriginal(events: seq<Event>, e: Event)
    requires Validates(Run(START, events), e) && e.scope != ""
    ensures var w := Run(START, events);
      && e.tokenKey in w.provenance
      && CarriesScope(w, w.provenance[e.tokenKey].origin, e.scope)
      && ScopeAdmits(w.provenance[e.tokenKey].wanted, e.scope)
  {
    ScopeInvHolds(START, events);
    assert TokenInv(Run(START, events), e.tokenKey);
  }

  // ----- the two races the conditions exclude -----

  /** Two requests present the challenge; both read the same time. */
  function Opening(key: string, exp: int, now: int): seq<Event> {
    [MintSigned(key, Claims(exp, 0, ""))] + ([BeginSigned(0, key, "", now)] + [BeginSigned(1, key, "", now)])
  }

  function BothChecked(key: string, exp: int, now: int): World {
    World(EMPTY, map[key := Claims(exp, 0, "")], {},
          map[0 := Checked(key, "", now), 1 := Checked(key, "", now)], map[])
  }

  lemma {:induction false} CountCons(w: World, e: Event, rest: seq<Event>, origin: Origin)
    ensures WinCount(w, [e] + rest, origin) == One(Wins(w, e, origin)) + WinCount(Next(w, e), rest, origin)
  {
    assert ([e] + rest)[1..] == rest;
  }

  lemma {:induction false} OpeningIsChecked(key: string, exp: int, now: int, rest: seq<Event>)
    requires exp != 0 && now <= exp
    ensures WinCount(START, Opening(key, exp, now) + rest, Signed(key))
         == WinCount(BothChecked(key, exp, now), rest, Signed(key))
  {
    var m, b0, b1 := MintSigned(key, Claims(exp, 0, "")), BeginSigned(0, key, "", now), BeginSigned(1, key, "", now);
    var w1 := START.(minted := map[key := Claims(exp, 0, "")]);
    var w2 := w1.(sessions := map[0 := Checked(key, "", now)]);
    assert Next(START, m) == w1 && Next(w1, b0) == w2 && Next(w2, b1) == BothChecked(key, exp, now);
    assert Opening(key, exp, now) + rest == [m] + ([b0] + ([b1] + rest));
    CountCons(START, m, [b0] + ([b1] + rest), Signed(key));
    CountCons(w1, b0, [b1] + rest, Signed(key));
    CountCons(w2, b1, rest, Signed(key));
  }

  /** The first claim wins and leaves the nonce behind. */
  lemma FirstClaimWins(key: string, exp: int, now: int)
    ensures var w := BothChecked(key, exp, now);
      && Wins(w, Claim(0), Signed(key))
      && Next(w, Claim(0)) == w.(store := State(map[], map["nonce:" + key := exp], map[]),
                                 sessions := w.sessions[0 := Won(Signed(key), "", "", now)])
  {
  }

  /** Both requests read the clock in the very millisecond of the expiry: the challenge is won twice. */
  lemma DoubleWinAtExpiry(key: string, exp: int)
    requires exp != 0
    ensures WinCount(START, Opening(key, exp, exp) + [Claim(0), Claim(1)], Signed(key)) == 2
  {
    var w := BothChecked(key, exp, exp);
    OpeningIsChecked(key, exp, exp, [Claim(0), Claim(1)]);
    FirstClaimWins(key, exp, exp);
    var v := Next(w, Claim(0));
    assert Wins(v, Claim(1), Signed(key));
    assert [Claim(0), Claim(1)] == [Claim(0)] + ([Claim(1)] + []);
    CountCons(w, Claim(0), [Claim(1)] + [], Signed(key));
    CountCons(v, Claim(1), [], Signed(key));
  }

  /** A cleanup at the expiry overtakes a request that read the clock before it: two wins again. */
  lemma DoubleWinAfterCleanup(key: string, exp: int)
    requires exp != 0
    ensures WinCount(START, Opening(key, exp, exp - 1) + [Claim(0), Clean(exp), Claim(1)], Signed(key)) == 2
  {
    var w := BothChecked(key, exp, exp - 1);
    OpeningIsChecked(key, exp, exp - 1, [Claim(0), Clean(exp), Claim(1)]);
    FirstClaimWins(key, exp, exp - 1);
    var v := Next(w, Claim(0));
    var u := Next(v, Clean(exp));
    assert u == v.(store := EMPTY);
    assert Wins(u, Claim(1), Signed(key));
    assert [Claim(0), Clean(exp), Claim(1)] == [Claim(0)] + ([Clean(exp)] + ([Claim(1)] + []));
    CountCons(w, Claim(0), [Clean(exp)] + ([Claim(1)] + []), Signed(key));
    CountCons(v, Clean(exp), [Claim(1)] + [], Signed(key));
    CountCons(u, Claim(1), [], Signed(key));
  }
}
