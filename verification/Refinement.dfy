/** The server object's requests are runs of the step-wise protocol. */
module Refinement {
  import opened Base64
  import opened Cap
  import opened Checks
  import Crypto
  import opened Numerals
  import opened Store
  import Protocol

  /** The claims of a token as the protocol sees them. */
  function ClaimsSeen(c: TokenClaims): Protocol.Claims {
    Protocol.Claims(c.exp, c.iat, c.sk)
  }

  function KeyFor(cap: Cap, id: Bytes, verifier: Bytes): string {
    StoreKey(cap.suite, HexOf(id), HexOf(verifier))
  }

  // ----- redeemSigned -----

  function SignedRun(cap: Cap, key: string, request: nat, wanted: string, now: int, id: Bytes, verifier: Bytes):
    seq<Protocol.Event>
  {
    [Protocol.BeginSigned(request, key, wanted, now)]
    + ([Protocol.Claim(request)] + [Protocol.Issue(request, KeyFor(cap, id, verifier), cap.tokenTtl)])
  }

  lemma RunTwo(w: Protocol.World, a: Protocol.Event, b: Protocol.Event)
    ensures Protocol.Run(w, [a] + [b]) == Protocol.Next(Protocol.Next(w, a), b)
  {
    assert ([a] + [b])[1..] == [b] && [b][1..] == [];
    var v := Protocol.Next(w, a);
    assert Protocol.Run(v, [b]) == Protocol.Run(Protocol.Next(v, b), []);
  }

  lemma RunThree(w: Protocol.World, a: Protocol.Event, b: Protocol.Event, c: Protocol.Event)
    ensures Protocol.Run(w, [a] + ([b] + [c])) == Protocol.Next(Protocol.Next(Protocol.Next(w, a), b), c)
  {
    assert ([a] + ([b] + [c]))[1..] == [b] + [c];
    RunTwo(Protocol.Next(w, a), b, c);
  }

  /** A request that passes its checks has a session between its clock read and its claim. */
  lemma PassingBegins(w: Protocol.World, claims: TokenClaims, key: string, request: nat, wanted: string, now: int)
    requires key in w.minted && w.minted[key] == ClaimsSeen(claims) && request !in w.sessions
    requires ScopeAdmits(wanted, claims.sk) && claims.exp != 0 && now <= claims.exp
    ensures Protocol.Next(w, Protocol.BeginSigned(request, key, wanted, now))
         == w.(sessions := w.sessions[request := Protocol.Checked(key, wanted, now)])
  {
  }

  /** The claim wins exactly when redeemSigned issues a token, and then leaves the same nonces. */
  lemma ClaimDecides(cap: Cap, claims: TokenClaims, key: string, now: int, id: Bytes, verifier: Bytes,
                     m: State, o: Outcome, n: State, v: Protocol.World, request: nat, wanted: string)
    requires cap.Redeemed(claims, key, false, now, id, verifier, m, o, n) && v.store == m
    requires key in v.minted && v.minted[key] == ClaimsSeen(claims)
    requires request in v.sessions && v.sessions[request] == Protocol.Checked(key, wanted, now)
    ensures Protocol.Wins(v, Protocol.Claim(request), Protocol.Signed(key)) <==> o.Token?
    ensures o.Token? ==>
              var won := Protocol.Won(Protocol.Signed(key), wanted, claims.sk, now);
              Protocol.Next(v, Protocol.Claim(request)) ==
              v.(store := Step(m, ClaimNonce("nonce:" + key, claims.exp, now)).0,
                 sessions := v.sessions[request := won])
    ensures !o.Token? ==>
              Protocol.Next(v, Protocol.Claim(request)) == v.(store := n, sessions := Without(v.sessions, request))
  {
  }

  /** A session that has come and gone leaves the others as they were. */
  lemma SessionEnds(s: map<nat, Protocol.Session>, request: nat, x: Protocol.Session)
    requires request !in s
    ensures Without(s[request := x], request) == s
  {
  }

  lemma SecondEntryWins(s: map<nat, Protocol.Session>, request: nat, x: Protocol.Session, y: Protocol.Session)
    ensures s[request := x][request := y] == s[request := y]
  {
  }

  /** The issue step of a winner puts its token and closes its session. */
  lemma WinnerIssues(v: Protocol.World, s: map<nat, Protocol.Session>, request: nat, tokenKey: string, ttl: nat,
                     won: Protocol.Session)
    requires request !in s && won.Won? && v.sessions == s[request := won]
    ensures var u := Protocol.Next(v, Protocol.Issue(request, tokenKey, ttl));
      && u.store == Step(v.store, PutToken(tokenKey, TokenRecord(won.scope, won.now + ttl))).0
      && u.sessions == s
  {
    SessionEnds(s, request, won);
  }

  /** Without a winner the issue step does nothing. */
  lemma NobodyIssues(v: Protocol.World, request: nat, tokenKey: string, ttl: nat)
    requires request !in v.sessions
    ensures Protocol.Next(v, Protocol.Issue(request, tokenKey, ttl)) == v
  {
  }

  /**
   * redeemSigned on a request that passes its checks has the effect of its three steps, run without a break;
   * it answers with a token exactly when the claim wins.
   */
  lemma SignedIsRun(cap: Cap, claims: TokenClaims, key: string, now: int, id: Bytes, verifier: Bytes,
                    m: State, o: Outcome, n: State, w: Protocol.World, request: nat, wanted: string)
    requires cap.Redeemed(claims, key, false, now, id, verifier, m, o, n) && w.store == m
    requires key in w.minted && w.minted[key] == ClaimsSeen(claims) && request !in w.sessions
    requires ScopeAdmits(wanted, claims.sk) && claims.exp != 0 && now <= claims.exp
    ensures var v := Protocol.Run(w, SignedRun(cap, key, request, wanted, now, id, verifier));
      v.store == n && v.sessions == w.sessions
    ensures var checked := Protocol.Next(w, Protocol.BeginSigned(request, key, wanted, now));
      Protocol.Wins(checked, Protocol.Claim(request), Protocol.Signed(key)) <==> o.Token?
  {
    var a, b := Protocol.BeginSigned(request, key, wanted, now), Protocol.Claim(request);
    var c := Protocol.Issue(request, KeyFor(cap, id, verifier), cap.tokenTtl);
    var checked := Protocol.Checked(key, wanted, now);
    var won := Protocol.Won(Protocol.Signed(key), wanted, claims.sk, now);
    var v := Protocol.Next(w, a);
    PassingBegins(w, claims, key, request, wanted, now);
    ClaimDecides(cap, claims, key, now, id, verifier, m, o, n, v, request, wanted);
    RunThree(w, a, b, c);
    if o.Token? {
      SecondEntryWins(w.sessions, request, checked, won);
      WinnerIssues(Protocol.Next(v, b), w.sessions, request, KeyFor(cap, id, verifier), cap.tokenTtl, won);
    } else {
      SessionEnds(w.sessions, request, checked);
      NobodyIssues(Protocol.Next(v, b), request, KeyFor(cap, id, verifier), cap.tokenTtl);
    }
  }

  /** A request that the scope or the expiry refuses opens no session. */
  lemma RefusedIsNoStep(s: Crypto.Suite, k: Codec, claims: TokenClaims, req: Request, wanted: string, now: int,
                        w: Protocol.World, key: string, request: nat)
    requires key in w.minted && w.minted[key] == ClaimsSeen(claims)
    requires !ScopeAdmits(wanted, claims.sk) || claims.exp == 0 || claims.exp < now
    ensures SignedVerdict(s, k, claims, req, wanted, now).Reject?
    ensures Protocol.Next(w, Protocol.BeginSigned(request, key, wanted, now)) == w
  {
  }

  // ----- redeemStored and Validate -----

  function StoredRun(cap: Cap, req: Request, request: nat, wanted: string, now: int, solved: bool,
                     id: Bytes, verifier: Bytes): seq<Protocol.Event>
  {
    [Protocol.RedeemStored(request, req.token, wanted, now, solved)]
    + [Protocol.Issue(request, KeyFor(cap, id, verifier), cap.tokenTtl)]
  }

  /** `solved` is what the checks after the scope's say of the record that is taken. */
  predicate AsFound(cap: Cap, m: State, req: Request, texts: seq<string>, wanted: string, now: int, solved: bool) {
    var found := Step(m, TakeChallenge(req.token, now)).1.found;
    found.Some? && ScopeAdmits(wanted, found.value.scope) ==>
      (solved <==> cap.StoredVerdict(found.value, req, texts, wanted, now) == Accept)
  }

  /** What redeemStored answers and stores once the take has left `taken`; `admitted` is the record that passes. */
  predicate Settled(cap: Cap, taken: State, admitted: Option<ChallengeRecord>, now: int, id: Bytes, verifier: Bytes,
                    o: Outcome, n: State)
  {
    && (o.Token? <==> admitted.Some?)
    && n == (if admitted.None? then taken
             else Step(taken, PutToken(KeyFor(cap, id, verifier),
                                       TokenRecord(admitted.value.scope, now + cap.tokenTtl))).0)
  }

  /** The record that the take finds and that the protocol's step lets through. */
  function Admitted(found: Option<ChallengeRecord>, wanted: string, solved: bool): Option<ChallengeRecord> {
    if found.Some? && ScopeAdmits(wanted, found.value.scope) && solved then found else None
  }

  lemma RedemptionSettles(cap: Cap, req: Request, texts: seq<string>, wanted: string, now: int, id: Bytes,
                          verifier: Bytes, m: State, o: Outcome, n: State, solved: bool)
    requires cap.RedeemedStored(req, texts, wanted, now, id, verifier, m, o, n)
    requires AsFound(cap, m, req, texts, wanted, now, solved)
    ensures var (taken, answer) := Step(m, TakeChallenge(req.token, now));
      Settled(cap, taken, Admitted(answer.found, wanted, solved), now, id, verifier, o, n)
  {
  }

  /** The protocol's step takes the record, and opens a winner on the one it admits. */
  lemma TakeOpens(w: Protocol.World, request: nat, token: string, wanted: string, now: int, solved: bool)
    requires request !in w.sessions
    ensures var (taken, answer) := Step(w.store, TakeChallenge(token, now));
      var admitted := Admitted(answer.found, wanted, solved);
      var a := Protocol.RedeemStored(request, token, wanted, now, solved);
      && Protocol.Next(w, a).store == taken
      && Protocol.Next(w, a).sessions ==
           (if admitted.None? then w.sessions
            else w.sessions[request := Protocol.Won(Protocol.Stored(token), wanted, admitted.value.scope, now)])
      && (Protocol.Wins(w, a, Protocol.Stored(token)) <==> admitted.Some?)
  {
  }

  /** The issue step leaves what redeemStored leaves. */
  lemma IssueSettles(cap: Cap, s: map<nat, Protocol.Session>, v: Protocol.World, request: nat, token: string,
                     wanted: string, admitted: Option<ChallengeRecord>, now: int, id: Bytes, verifier: Bytes,
                     o: Outcome, n: State)
    requires request !in s
    requires v.sessions ==
      if admitted.None? then s
      else s[request := Protocol.Won(Protocol.Stored(token), wanted, admitted.value.scope, now)]
    requires Settled(cap, v.store, admitted, now, id, verifier, o, n)
    ensures var u := Protocol.Next(v, Protocol.Issue(request, KeyFor(cap, id, verifier), cap.tokenTtl));
      u.store == n && u.sessions == s
  {
    if admitted.Some? {
      WinnerIssues(v, s, request, KeyFor(cap, id, verifier), cap.tokenTtl,
                   Protocol.Won(Protocol.Stored(token), wanted, admitted.value.scope, now));
    } else {
      NobodyIssues(v, request, KeyFor(cap, id, verifier), cap.tokenTtl);
    }
  }

  lemma SettledIsRun(cap: Cap, req: Request, wanted: string, now: int, id: Bytes, verifier: Bytes, o: Outcome, n: State,
                     w: Protocol.World, request: nat, solved: bool)
    requires request !in w.sessions
    requires var (taken, answer) := Step(w.store, TakeChallenge(req.token, now));
      Settled(cap, taken, Admitted(answer.found, wanted, solved), now, id, verifier, o, n)
    ensures var v := Protocol.Run(w, StoredRun(cap, req, request, wanted, now, solved, id, verifier));
      v.store == n && v.sessions == w.sessions
    ensures var a := Protocol.RedeemStored(request, req.token, wanted, now, solved);
      Protocol.Wins(w, a, Protocol.Stored(req.token)) <==> o.Token?
  {
    var a := Protocol.RedeemStored(request, req.token, wanted, now, solved);
    var b := Protocol.Issue(request, KeyFor(cap, id, verifier), cap.tokenTtl);
    RunTwo(w, a, b);
    TakeOpens(w, request, req.token, wanted, now, solved);
    IssueSettles(cap, w.sessions, Protocol.Next(w, a), request, req.token, wanted,
                 Admitted(Step(w.store, TakeChallenge(req.token, now)).1.found, wanted, solved), now, id, verifier,
                 o, n);
  }

  /**
   * redeemStored has the effect of its two steps, run without a break; it answers with a token exactly when the
   * first of them wins.
   */
  lemma StoredIsRun(cap: Cap, req: Request, texts: seq<string>, wanted: string, now: int, id: Bytes, verifier: Bytes,
                    m: State, o: Outcome, n: State, w: Protocol.World, request: nat, solved: bool)
    requires cap.RedeemedStored(req, texts, wanted, now, id, verifier, m, o, n) && w.store == m
    requires request !in w.sessions && AsFound(cap, m, req, texts, wanted, now, solved)
    ensures var v := Protocol.Run(w, StoredRun(cap, req, request, wanted, now, solved, id, verifier));
      v.store == n && v.sessions == w.sessions
    ensures var a := Protocol.RedeemStored(request, req.token, wanted, now, solved);
      Protocol.Wins(w, a, Protocol.Stored(req.token)) <==> o.Token?
  {
    RedemptionSettles(cap, req, texts, wanted, now, id, verifier, m, o, n, solved);
    SettledIsRun(cap, req, wanted, now, id, verifier, o, n, w, request, solved);
  }

  /** Validate is the one step of the same name, answer and effect. */
  lemma ValidateIsStep(w: Protocol.World, key: string, scope: string, now: int, keep: bool)
    ensures var e := Protocol.Validate(key, scope, now, keep);
      var (n, answer) := Step(w.store, ConsumeToken(key, scope, now, keep));
      Protocol.Next(w, e).store == n && (Protocol.Validates(w, e) <==> answer.token.Some?)
  {
  }
}
