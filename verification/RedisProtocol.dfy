/**
 * Single use of a signed challenge when replicas share a Redis store: requests interleave step by step as in
 * Protocol, other traffic goes on beside them, and Redis drops keys that are due.
 */
module RedisProtocol {
  import opened Store
  import opened Redis
  import Protocol

  datatype World = World(
    keys: Keys, minted: map<string, Protocol.Claims>, sessions: map<nat, Protocol.Session>)

  /** `at` is the clock when Redis runs the command; `now` is the time the request has read. */
  datatype Event =
    | MintSigned(key: string, claims: Protocol.Claims)
    | BeginSigned(request: nat, key: string, wanted: string, now: int)
    | Claim(request: nat, at: int)
    | Issue(request: nat, tokenKey: string, ttl: nat, at: int)
    | Other(op: Op, at: int)
    | Evict(redisKey: string, at: int)

  const START := World(map[], map[], map[])

  /** The Redis key of a challenge's nonce. */
  function NonceOf(prefix: string, key: string): string {
    NonceKey(prefix, "nonce:" + key)
  }

  /** A step that does not apply changes nothing; a Reset is not part of these runs. */
  function Next(w: World, prefix: string, e: Event): World {
    match e
    case MintSigned(key, claims) =>
      if key in w.minted then w else w.(minted := w.minted[key := claims])
    case BeginSigned(request, key, wanted, now) =>
      if request in w.sessions || key !in w.minted then w
      else
        var c := w.minted[key];
        if !ScopeAdmits(wanted, c.scope) || c.exp == 0 || c.exp < now then w
        else w.(sessions := w.sessions[request := Protocol.Checked(key, wanted, now)])
    case Claim(request, at) =>
      if request !in w.sessions || !w.sessions[request].Checked? || w.sessions[request].key !in w.minted then w
      else
        var s := w.sessions[request];
        var c := w.minted[s.key];
        var (keys, answer) := RedisStep(w.keys, prefix, ClaimNonce("nonce:" + s.key, c.exp, s.now), at);
        if answer == Claimed(true) then
          w.(keys := keys,
             sessions := w.sessions[request := Protocol.Won(Protocol.Signed(s.key), s.wanted, c.scope, s.now)])
        else w.(keys := keys, sessions := Without(w.sessions, request))
    case Issue(request, tokenKey, ttl, at) =>
      if request !in w.sessions || !w.sessions[request].Won? then w
      else
        var s := w.sessions[request];
        World(RedisStep(w.keys, prefix, PutToken(tokenKey, TokenRecord(s.scope, s.now + ttl)), at).0,
              w.minted, Without(w.sessions, request))
    case Other(op, at) =>
      if op.ClaimNonce? || op.Reset? then w else w.(keys := RedisStep(w.keys, prefix, op, at).0)
    case Evict(redisKey, at) =>
      if redisKey in w.keys && w.keys[redisKey].deadline <= at then w.(keys := Without(w.keys, redisKey)) else w
  }

  predicate IsClaimOn(w: World, e: Event, key: string) {
    && e.Claim? && e.request in w.sessions && w.sessions[e.request].Checked?
    && w.sessions[e.request].key == key && key in w.minted
  }

  predicate Wins(w: World, prefix: string, e: Event, key: string) {
    IsClaimOn(w, e, key) && NonceOf(prefix, key) !in w.keys
  }

  function WinCount(w: World, prefix: string, events: seq<Event>, key: string): nat
    decreases |events|
  {
    if events == [] then 0
    else One(Wins(w, prefix, events[0], key)) + WinCount(Next(w, prefix, events[0]), prefix, events[1..], key)
  }

  /** A winner is what the claim makes of its request. */
  lemma WinnersWin(w: World, prefix: string, e: Event, key: string)
    requires IsClaimOn(w, e, key)
    ensures var v := Next(w, prefix, e);
      Wins(w, prefix, e, key) <==> e.request in v.sessions && v.sessions[e.request].Won?
  {
  }

  /** Redis lets go of the nonce. */
  predicate IsDropOf(w: World, prefix: string, e: Event, key: string) {
    var n := NonceOf(prefix, key);
    e.Evict? && e.redisKey == n && n in w.keys && w.keys[n].deadline <= e.at
  }

  /** Once the claimed nonce is dropped, no further claim on it comes. */
  predicate NoClaimAfterDrop(w: World, prefix: string, events: seq<Event>, key: string, claimed: bool, dropped: bool)
    decreases |events|
  {
    if events == [] then true
    else
      var e, v := events[0], Next(w, prefix, events[0]);
      if IsClaimOn(w, e, key) then !dropped && NoClaimAfterDrop(v, prefix, events[1..], key, true, dropped)
      else NoClaimAfterDrop(v, prefix, events[1..], key, claimed, dropped || IsDropOf(w, prefix, e, key))
  }

  /** The nonce is in Redis exactly from its claim to its drop. */
  predicate NonceHistory(w: World, prefix: string, key: string, claimed: bool, dropped: bool) {
    && (NonceOf(prefix, key) in w.keys <==> claimed && !dropped)
    && (dropped ==> claimed)
  }

  lemma NoncesDiffer(prefix: string, a: string, b: string)
    ensures NonceOf(prefix, a) == NonceOf(prefix, b) <==> a == b
  {
    KeysDiffer(prefix, "nonce:" + a, "nonce:" + b);
    Protocol.NonceKeysDiffer(a, b);
  }

  lemma ClaimStep(w: World, prefix: string, e: Event, key: string, claimed: bool, dropped: bool)
    requires NonceHistory(w, prefix, key, claimed, dropped) && IsClaimOn(w, e, key)
    ensures Wins(w, prefix, e, key) <==> !claimed || dropped
    ensures !dropped ==> NonceHistory(Next(w, prefix, e), prefix, key, true, false)
  {
  }

  /** Commands on other kinds of keys leave the nonce alone. */
  lemma OtherKeepsNonce(keys: Keys, prefix: string, op: Op, at: int, key: string)
    requires !op.ClaimNonce? && !op.Reset?
    ensures var n, r := NonceOf(prefix, key), RedisStep(keys, prefix, op, at).0;
      (n in r <==> n in keys) && (n in keys ==> r[n] == keys[n])
  {
    var k := "nonce:" + key;
    match op
    case PutChallenge(u, _) => KeysDiffer(prefix, u, k);
    case TakeChallenge(u, _) => KeysDiffer(prefix, u, k);
    case PutToken(u, _) => KeysDiffer(prefix, k, u);
    case ConsumeToken(u, _, _, _) => KeysDiffer(prefix, k, u);
    case Cleanup(_) =>
  }

  lemma OtherStep(w: World, prefix: string, e: Event, key: string, claimed: bool, dropped: bool)
    requires NonceHistory(w, prefix, key, claimed, dropped) && !IsClaimOn(w, e, key)
    ensures NonceHistory(Next(w, prefix, e), prefix, key, claimed, dropped || IsDropOf(w, prefix, e, key))
  {
    if e.Claim? && e.request in w.sessions && w.sessions[e.request].Checked? {
      NoncesDiffer(prefix, w.sessions[e.request].key, key);
    } else if e.Other? && !e.op.ClaimNonce? && !e.op.Reset? {
      OtherKeepsNonce(w.keys, prefix, e.op, e.at, key);
    } else if e.Issue? && e.request in w.sessions && w.sessions[e.request].Won? {
      var s := w.sessions[e.request];
      OtherKeepsNonce(w.keys, prefix, PutToken(e.tokenKey, TokenRecord(s.scope, s.now + e.ttl)), e.at, key);
    }
  }

  lemma {:induction false} WinsIffHeld(w: World, prefix: string, events: seq<Event>, key: string,
                                       claimed: bool, dropped: bool)
    requires NonceHistory(w, prefix, key, claimed, dropped)
    ensures WinCount(w, prefix, events, key) <= One(!claimed)
       <==> NoClaimAfterDrop(w, prefix, events, key, claimed, dropped)
    decreases |events|
  {
    if events != [] {
      var e, rest := events[0], events[1..];
      if IsClaimOn(w, e, key) {
        ClaimStep(w, prefix, e, key, claimed, dropped);
        if !dropped {
          WinsIffHeld(Next(w, prefix, e), prefix, rest, key, true, false);
        }
      } else {
        OtherStep(w, prefix, e, key, claimed, dropped);
        WinsIffHeld(Next(w, prefix, e), prefix, rest, key, claimed, dropped || IsDropOf(w, prefix, e, key));
      }
    }
  }

  /**
   * Single use on Redis, exactly: over every interleaving, with any other traffic and any drops of due keys,
   * a signed challenge is won at most once if and only if no claim follows the drop of its nonce.
   */
  lemma RedisSingleUseIff(prefix: string, events: seq<Event>, key: string)
    ensures WinCount(START, prefix, events, key) <= 1 <==> NoClaimAfterDrop(START, prefix, events, key, false, false)
  {
    WinsIffHeld(START, prefix, events, key, false, false);
  }

  // ----- from winning to issuing -----

  function Pending(w: World, key: string): set<nat> {
    set q | q in w.sessions && w.sessions[q].Won? && w.sessions[q].origin == Protocol.Signed(key)
  }

  predicate Issues(w: World, e: Event, key: string) {
    e.Issue? && e.request in Pending(w, key)
  }

  function IssueCount(w: World, prefix: string, events: seq<Event>, key: string): nat
    decreases |events|
  {
    if events == [] then 0
    else One(Issues(w, events[0], key)) + IssueCount(Next(w, prefix, events[0]), prefix, events[1..], key)
  }

  lemma PendingAfterWin(w: World, prefix: string, e: Event, key: string)
    requires Wins(w, prefix, e, key)
    ensures Pending(Next(w, prefix, e), key) == Pending(w, key) + {e.request} && e.request !in Pending(w, key)
  {
    WinnersWin(w, prefix, e, key);
  }

  lemma PendingAfterIssue(w: World, prefix: string, e: Event, key: string)
    requires Issues(w, e, key)
    ensures Pending(Next(w, prefix, e), key) == Pending(w, key) - {e.request}
  {
  }

  lemma PendingOtherwise(w: World, prefix: string, e: Event, key: string)
    requires !Wins(w, prefix, e, key) && !Issues(w, e, key)
    ensures Pending(Next(w, prefix, e), key) == Pending(w, key)
  {
    if IsClaimOn(w, e, key) {
      WinnersWin(w, prefix, e, key);
    }
  }

  /** Every issued token was won, and no win issues two. */
  lemma {:induction false} IssuesAreWon(w: World, prefix: string, events: seq<Event>, key: string)
    ensures IssueCount(w, prefix, events, key) <= WinCount(w, prefix, events, key) + |Pending(w, key)|
    decreases |events|
  {
    if events != [] {
      var e := events[0];
      if Wins(w, prefix, e, key) {
        PendingAfterWin(w, prefix, e, key);
      } else if Issues(w, e, key) {
        PendingAfterIssue(w, prefix, e, key);
      } else {
        PendingOtherwise(w, prefix, e, key);
      }
      IssuesAreWon(Next(w, prefix, e), prefix, events[1..], key);
    }
  }

  /** At most one token from a signed challenge whose nonce is not claimed after its drop. */
  lemma AtMostOneToken(prefix: string, events: seq<Event>, key: string)
    requires NoClaimAfterDrop(START, prefix, events, key, false, false)
    ensures IssueCount(START, prefix, events, key) <= 1
  {
    RedisSingleUseIff(prefix, events, key);
    IssuesAreWon(START, prefix, events, key);
    assert Pending(START, key) == {};
  }

  // ----- times under which no claim follows the drop -----

  /** Redis's clock after the event; what a request reads for itself does not move it. */
  function TimeOfEvent(e: Event, from: int): int {
    match e
    case MintSigned(_, _) => from
    case BeginSigned(_, _, _, _) => from
    case Claim(_, at) => at
    case Issue(_, _, _, at) => at
    case Other(_, at) => at
    case Evict(_, at) => at
  }

  /** Redis's clock does not go back. */
  predicate ClockMovesOn(events: seq<Event>, from: int) {
    events != [] ==> from <= TimeOfEvent(events[0], from) && ClockMovesOn(events[1..], TimeOfEvent(events[0], from))
  }

  /** Every claim on the key reaches Redis no earlier than its request's read, and before the challenge expires. */
  predicate ClaimsBeforeExpiry(w: World, prefix: string, events: seq<Event>, key: string, exp: int)
    decreases |events|
  {
    events != [] ==>
      && (IsClaimOn(w, events[0], key) ==> w.sessions[events[0].request].now <= events[0].at < exp)
      && ClaimsBeforeExpiry(Next(w, prefix, events[0]), prefix, events[1..], key, exp)
  }

  predicate MintsWithExpiry(events: seq<Event>, key: string, exp: int) {
    forall i :: 0 <= i < |events| && events[i].MintSigned? && events[i].key == key ==> events[i].claims.exp == exp
  }

  /** The nonce is kept until the expiry at least. */
  predicate KeptTillExpiry(w: World, prefix: string, key: string, exp: int) {
    var n := NonceOf(prefix, key);
    && (key in w.minted ==> w.minted[key].exp == exp)
    && (n in w.keys ==> exp <= w.keys[n].deadline)
  }

  lemma KeptStep(w: World, prefix: string, e: Event, key: string, exp: int, from: int)
    requires KeptTillExpiry(w, prefix, key, exp) && from <= TimeOfEvent(e, from)
    requires IsClaimOn(w, e, key) ==> w.sessions[e.request].now <= e.at
    requires e.MintSigned? && e.key == key ==> e.claims.exp == exp
    ensures KeptTillExpiry(Next(w, prefix, e), prefix, key, exp)
    ensures IsDropOf(w, prefix, e, key) ==> exp <= TimeOfEvent(e, from)
  {
    if e.Claim? && e.request in w.sessions && w.sessions[e.request].Checked? {
      NoncesDiffer(prefix, w.sessions[e.request].key, key);
    } else if e.Other? && !e.op.ClaimNonce? && !e.op.Reset? {
      OtherKeepsNonce(w.keys, prefix, e.op, e.at, key);
    } else if e.Issue? && e.request in w.sessions && w.sessions[e.request].Won? {
      var s := w.sessions[e.request];
      OtherKeepsNonce(w.keys, prefix, PutToken(e.tokenKey, TokenRecord(s.scope, s.now + e.ttl)), e.at, key);
    }
  }

  lemma {:induction false} EarlyClaimsAreHeld(w: World, prefix: string, events: seq<Event>, key: string, exp: int,
                                              from: int, claimed: bool, dropped: bool)
    requires MintsWithExpiry(events, key, exp) && ClockMovesOn(events, from)
    requires ClaimsBeforeExpiry(w, prefix, events, key, exp) && KeptTillExpiry(w, prefix, key, exp)
    requires dropped ==> exp <= from
    ensures NoClaimAfterDrop(w, prefix, events, key, claimed, dropped)
    decreases |events|
  {
    if events != [] {
      var e, rest := events[0], events[1..];
      assert forall i :: 0 <= i < |rest| ==> rest[i] == events[i + 1];
      KeptStep(w, prefix, e, key, exp, from);
      var claimed', dropped' := claimed || IsClaimOn(w, e, key), dropped || IsDropOf(w, prefix, e, key);
      EarlyClaimsAreHeld(Next(w, prefix, e), prefix, rest, key, exp, TimeOfEvent(e, from), claimed', dropped');
    }
  }

  /**
   * At most one win and one token on Redis when every claim on the key reaches Redis before the expiry, however
   * old the time its request has read and whatever Redis drops in between.
   */
  lemma AtMostOneInTime(prefix: string, events: seq<Event>, key: string, exp: int, from: int)
    requires MintsWithExpiry(events, key, exp) && ClockMovesOn(events, from)
    requires ClaimsBeforeExpiry(START, prefix, events, key, exp)
    ensures WinCount(START, prefix, events, key) <= 1 && IssueCount(START, prefix, events, key) <= 1
  {
    EarlyClaimsAreHeld(START, prefix, events, key, exp, from, false, false);
    RedisSingleUseIff(prefix, events, key);
    AtMostOneToken(prefix, events, key);
  }

  // ----- the race the condition excludes -----

  function BothChecked(key: string, exp: int, now: int): World {
    World(map[], map[key := Protocol.Claims(exp, 0, "")],
          map[0 := Protocol.Checked(key, "", now), 1 := Protocol.Checked(key, "", now)])
  }

  function Opening(key: string, exp: int, now: int): seq<Event> {
    [MintSigned(key, Protocol.Claims(exp, 0, ""))] + ([BeginSigned(0, key, "", now)] + [BeginSigned(1, key, "", now)])
  }

  lemma CountCons(w: World, prefix: string, e: Event, rest: seq<Event>, key: string)
    ensures WinCount(w, prefix, [e] + rest, key)
         == One(Wins(w, prefix, e, key)) + WinCount(Next(w, prefix, e), prefix, rest, key)
  {
    assert ([e] + rest)[1..] == rest;
  }

  lemma OpeningIsChecked(prefix: string, key: string, exp: int, now: int, rest: seq<Event>)
    requires exp != 0 && now <= exp
    ensures WinCount(START, prefix, Opening(key, exp, now) + rest, key)
         == WinCount(BothChecked(key, exp, now), prefix, rest, key)
  {
    var m, b0, b1 := Opening(key, exp, now)[0], BeginSigned(0, key, "", now), BeginSigned(1, key, "", now);
    var w1 := START.(minted := map[key := Protocol.Claims(exp, 0, "")]);
    var w2 := w1.(sessions := map[0 := Protocol.Checked(key, "", now)]);
    assert Next(START, prefix, m) == w1 && Next(w1, prefix, b0) == w2;
    assert Next(w2, prefix, b1) == BothChecked(key, exp, now);
    assert Opening(key, exp, now) + rest == [m] + ([b0] + ([b1] + rest));
    CountCons(START, prefix, m, [b0] + ([b1] + rest), key);
    CountCons(w1, prefix, b0, [b1] + rest, key);
    CountCons(w2, prefix, b1, rest, key);
  }

  /** The first claim wins and leaves its nonce until the expiry. */
  lemma FirstClaimWins(prefix: string, key: string, exp: int)
    ensures var w, first := BothChecked(key, exp, exp - 1), Claim(0, exp - 1);
      && Wins(w, prefix, first, key)
      && Next(w, prefix, first) == World(
           map[NonceOf(prefix, key) := Entry(NonceV(exp), exp)], w.minted,
           w.sessions[0 := Protocol.Won(Protocol.Signed(key), "", "", exp - 1)])
  {
  }

  lemma DroppedThenClaimed(prefix: string, key: string, exp: int, v: World)
    requires v.keys == map[NonceOf(prefix, key) := Entry(NonceV(exp), exp)] && key in v.minted
    requires 1 in v.sessions && v.sessions[1] == Protocol.Checked(key, "", exp - 1)
    ensures var u := Next(v, prefix, Evict(NonceOf(prefix, key), exp)); Wins(u, prefix, Claim(1, exp), key)
  {
  }

  /**
   * Two requests that have read the millisecond before the expiry: the first claims, Redis drops its nonce at
   * the expiry, and the second, whose claim comes then, wins as well.
   */
  lemma DoubleWinAfterDrop(prefix: string, key: string, exp: int)
    requires exp != 0
    ensures var race := [Claim(0, exp - 1)] + ([Evict(NonceOf(prefix, key), exp)] + ([Claim(1, exp)] + []));
      WinCount(START, prefix, Opening(key, exp, exp - 1) + race, key) == 2
  {
    var w := BothChecked(key, exp, exp - 1);
    var first, drop, second := Claim(0, exp - 1), Evict(NonceOf(prefix, key), exp), Claim(1, exp);
    OpeningIsChecked(prefix, key, exp, exp - 1, [first] + ([drop] + ([second] + [])));
    var v := Next(w, prefix, first);
    var u := Next(v, prefix, drop);
    FirstClaimWins(prefix, key, exp);
    DroppedThenClaimed(prefix, key, exp, v);
    CountCons(w, prefix, first, [drop] + ([second] + []), key);
    CountCons(v, prefix, drop, [second] + [], key);
    CountCons(u, prefix, second, [], key);
  }
}
