/** The server object: challenges, redemption, verification tokens (cap.go). */
module Cap {
  import opened Base64
  import opened Challenge
  import opened Checks
  import opened Completeness
  import opened Crypto
  import opened Hashcash
  import opened InMemory
  import opened Json
  import opened Numerals
  import opened Store
  import Rsw

  // ----- signed claims -----

  datatype TokenClaims = TokenClaims(
    f: int, n: string, c: int, s: int, d: int, exp: int, iat: int, sk: string, ei: string, ev: string)

  /** The JSON encodings, as injective maps to bytes. */
  datatype Codec = Codec(
    claimsOut: TokenClaims -> Bytes, claimsIn: Bytes -> Option<TokenClaims>,
    envelopeOut: seq<Expected> -> Bytes, envelopeIn: Bytes -> Option<seq<Expected>>,
    metaOut: InstrumentationMeta -> Bytes, metaIn: Bytes -> Option<InstrumentationMeta>)

  ghost predicate RoundTrips(k: Codec) {
    && (forall x :: k.claimsIn(k.claimsOut(x)) == Some(x) && k.claimsOut(x) != [])
    && (forall x :: k.envelopeIn(k.envelopeOut(x)) == Some(x))
    && (forall x :: k.metaIn(k.metaOut(x)) == Some(x))
  }

  const FORMAT1_INFO := "cap:enc-v1"
  const FORMAT2_INFO := "cap:fmt2-v1"

  datatype Request = Request(token: string, solutions: Json, instr: Option<Json>, blocked: bool, timeout: bool)

  /** A verifying token's claims and nonce key. */
  function ClaimsOf(s: Suite, k: Codec, token: string): Option<(TokenClaims, string)> {
    match JwtVerify(s, token)
    case None => None
    case Some((payload, key)) =>
      match k.claimsIn(payload)
      case None => None
      case Some(claims) => Some((claims, key))
  }

  /** The opened envelope of a format-2 token. */
  function EnvelopeOf(s: Suite, k: Codec, claims: TokenClaims): Option<seq<Expected>> {
    match Decrypted(s, FORMAT2_INFO, claims.ev)
    case None => None
    case Some(bytes) => k.envelopeIn(bytes)
  }

  predicate Format2Accepts(s: Suite, k: Codec, claims: TokenClaims, posted: Json, now: int) {
    && EnvelopeOf(s, k, claims).Some?
    && ItemsOf(posted).Some?
    && |ItemsOf(posted).value| == |EnvelopeOf(s, k, claims).value|
    && Checks.AcceptsUpTo(s, EnvelopeOf(s, k, claims).value, ItemsOf(posted).value, now,
                          |EnvelopeOf(s, k, claims).value|)
  }

  function MetaOf(s: Suite, k: Codec, claims: TokenClaims): Option<InstrumentationMeta> {
    match Decrypted(s, FORMAT1_INFO, claims.ei)
    case None => None
    case Some(bytes) => k.metaIn(bytes)
  }

  predicate Format1SignedAccepts(s: Suite, k: Codec, claims: TokenClaims, req: Request, now: int) {
    && ValidPowParams(claims.c, claims.s, claims.d)
    && Format1Solutions(req.solutions).Some?
    && SolvesAll(s, Format1Pairs(req.token, claims.c, claims.s, claims.d), Format1Solutions(req.solutions).value)
    && (claims.ei != "" ==>
          && MetaOf(s, k, claims).Some?
          && CheckInstrumentation(MetaOf(s, k, claims), now, req.instr, req.blocked, req.timeout) == Accept)
  }

  /** Everything redeemSigned checks before it claims the nonce. */
  predicate PassesChecks(s: Suite, k: Codec, claims: TokenClaims, req: Request, wanted: string, now: int) {
    && ScopeAdmits(wanted, claims.sk)
    && claims.exp != 0 && now <= claims.exp
    && (if claims.f == 2 then Format2Accepts(s, k, claims, req.solutions, now)
        else Format1SignedAccepts(s, k, claims, req, now))
  }

  // ----- the answer with its reason, in the order redeemSigned looks -----

  function V2Verdict(s: Suite, k: Codec, claims: TokenClaims, posted: Json, now: int): Verdict {
    match EnvelopeOf(s, k, claims)
    case None => Reject(InvalidToken)
    case Some(expected) => EntriesVerdict(s, expected, posted, now)
  }

  function Format1Verdict(s: Suite, k: Codec, claims: TokenClaims, req: Request, now: int): Verdict {
    if !ValidPowParams(claims.c, claims.s, claims.d) then Reject(InvalidToken)
    else
      match Format1Solutions(req.solutions)
      case None => Reject(InvalidSolutions)
      case Some(texts) =>
        if |texts| != claims.c then Reject(InvalidSolutions)
        else if !SolvesAll(s, Format1Pairs(req.token, claims.c, claims.s, claims.d), texts) then Reject(InvalidSolution)
        else if claims.ei == "" then Accept
        else CheckInstrumentation(MetaOf(s, k, claims), now, req.instr, req.blocked, req.timeout)
  }

  function SignedVerdict(s: Suite, k: Codec, claims: TokenClaims, req: Request, wanted: string, now: int): Verdict {
    if !ScopeAdmits(wanted, claims.sk) then Reject(ScopeMismatch)
    else if claims.exp == 0 || claims.exp < now then Reject(Expired)
    else if claims.f == 2 then V2Verdict(s, k, claims, req.solutions, now)
    else Format1Verdict(s, k, claims, req, now)
  }

  /** Accepted means exactly that every check passes. */
  lemma SignedVerdictAccepts(s: Suite, k: Codec, claims: TokenClaims, req: Request, wanted: string, now: int)
    ensures SignedVerdict(s, k, claims, req, wanted, now) == Accept <==> PassesChecks(s, k, claims, req, wanted, now)
  {
    var expected, items := EnvelopeOf(s, k, claims), ItemsOf(req.solutions);
    if claims.f == 2 && expected.Some? && items.Some? && |items.value| == |expected.value| {
      FirstVerdictMeaning(s, expected.value, items.value, now);
    }
  }

  method VerifyV2(s: Suite, k: Codec, claims: TokenClaims, posted: Json, now: int) returns (v: Verdict)
    ensures v == V2Verdict(s, k, claims, posted, now)
  {
    var envelope := EnvelopeOf(s, k, claims);
    if envelope.None? {
      return Reject(InvalidToken);
    }
    v := VerifyEntries(s, envelope.value, posted, now);
  }

  method VerifySignedFormat1(s: Suite, k: Codec, claims: TokenClaims, req: Request, now: int) returns (v: Verdict)
    ensures v == Format1Verdict(s, k, claims, req, now)
  {
    if !ValidPowParams(claims.c, claims.s, claims.d) {
      return Reject(InvalidToken);
    }
    var solutions := Format1Solutions(req.solutions);
    if solutions.None? {
      return Reject(InvalidSolutions);
    }
    var f := VerifyFormat1(s, req.token, claims.c, claims.s, claims.d, solutions.value);
    if f != Accepted {
      return Reject(if f.WrongCount? then InvalidSolutions else InvalidSolution);
    }
    if claims.ei != "" {
      var meta := MetaOf(s, k, claims);
      if meta.None? {
        return Reject(InstrCorrupted);
      }
      return CheckInstrumentation(meta, now, req.instr, req.blocked, req.timeout);
    }
    return Accept;
  }

  /** Everything before the nonce claim. */
  method CheckSigned(s: Suite, k: Codec, claims: TokenClaims, req: Request, wanted: string, now: int)
    returns (v: Verdict)
    ensures v == SignedVerdict(s, k, claims, req, wanted, now)
    ensures v == Accept <==> PassesChecks(s, k, claims, req, wanted, now)
  {
    SignedVerdictAccepts(s, k, claims, req, wanted, now);
    if wanted != "" && claims.sk != wanted {
      return Reject(ScopeMismatch);
    }
    if claims.exp == 0 || claims.exp < now {
      return Reject(Expired);
    }
    if claims.f == 2 {
      v := VerifyV2(s, k, claims, req.solutions, now);
    } else {
      v := VerifySignedFormat1(s, k, claims, req, now);
    }
  }

  // ----- verification tokens -----

  datatype Issued = Issued(token: string, expires: int, scope: string, iat: int)

  datatype Outcome = Token(issued: Issued) | Refused(reason: Reason)

  function StoreKey(s: Suite, id: string, verifier: string): string {
    id + ":" + HexOf(s.sha(verifier))
  }

  /** The position of the first ':'. */
  function FindColon(t: string): (i: nat)
    ensures i <= |t| && (i < |t| ==> t[i] == ':') && ':' !in t[..i]
  {
    if t == "" || t[0] == ':' then 0
    else
      var i := FindColon(t[1..]);
      assert t[..i + 1] == [t[0]] + t[1..][..i];
      i + 1
  }

  function TokenKey(s: Suite, token: string): Option<string> {
    var i := FindColon(token);
    if i == |token| then None
    else
      var id, verifier := token[..i], token[i + 1..];
      if id == "" || verifier == "" || ':' in verifier then None else Some(StoreKey(s, id, verifier))
  }

  lemma {:induction false} HexHasNoColon(b: Bytes)
    ensures ':' !in HexOf(b)
  {
    HexIsDigits(b);
    assert forall i :: 0 <= i < |HexOf(b)| ==> IsDigit(HexOf(b)[i], 16);
  }

  lemma {:induction false} FirstColon(a: string, rest: string)
    requires ':' !in a
    ensures FindColon(a + ":" + rest) == |a|
  {
    var t := a + ":" + rest;
    if a != "" {
      assert t[0] == a[0] && t[1..] == a[1..] + ":" + rest;
      FirstColon(a[1..], rest);
    }
  }

  /** Validate finds an issued token under the key issueToken stored it with. */
  lemma {:induction false} IssuedKeyIsFound(s: Suite, id: Bytes, verifier: Bytes)
    requires id != [] && verifier != []
    ensures TokenKey(s, HexOf(id) + ":" + HexOf(verifier)) == Some(StoreKey(s, HexOf(id), HexOf(verifier)))
  {
    HexHasNoColon(id);
    HexHasNoColon(verifier);
    var a, b := HexOf(id), HexOf(verifier);
    var t := a + ":" + b;
    FirstColon(a, b);
    assert t[..|a|] == a && t[|a| + 1..] == b;
  }

  // ----- the challenge -----

  datatype Challenge2 = Challenge2(token: string, expires: int, entries: seq<Entry>)

  /** The token's envelope opens to these expected answers, under this scope and expiry. */
  ghost predicate Carries(s: Suite, k: Codec, ch: Challenge2, xs: seq<Expected>, scope: string) {
    var c := ClaimsOf(s, k, ch.token);
    && c.Some? && c.value.0.f == 2 && c.value.0.exp == ch.expires && c.value.0.sk == scope
    && EnvelopeOf(s, k, c.value.0) == Some(xs)
  }

  /** This challenge, with these answers sealed in, was built from these settings and draws. */
  ghost predicate IssuedFrom(s: Suite, k: Codec, c: Config, tape: Tape, ch: Challenge2, xs: seq<Expected>,
                             scope: string) {
    && BuiltFrom(c, tape, ch.entries, xs, ch.expires)
    && Carries(s, k, ch, xs, scope)
  }

  /** A token signed over these claims gives them back. */
  lemma ClaimsOfSigned(s: Suite, k: Codec, claims: TokenClaims)
    requires Lawful(s) && RoundTrips(k)
    ensures var c := ClaimsOf(s, k, JwtSign(s, k.claimsOut(claims))); c.Some? && c.value.0 == claims
  {
    VerifyOfSign(s, k.claimsOut(claims));
  }

  /** The second half of challengeV2: seal the expected answers, sign the claims. */
  method SealChallenge(s: Suite, k: Codec, b: Built, iv: Bytes, nonce: Bytes, scope: string, now: int, expires: int)
    returns (ch: Challenge2)
    requires Lawful(s) && RoundTrips(k) && |iv| == 12
    ensures ch.entries == b.entries && ch.expires == expires && Carries(s, k, ch, b.expected, scope)
  {
    var ev := EncryptGcm(s, FORMAT2_INFO, k.envelopeOut(b.expected), iv);
    var claims := TokenClaims(2, HexOf(nonce), 0, 0, 0, expires, now, scope, "", ev);
    ClaimsOfSigned(s, k, claims);
    ch := Challenge2(JwtSign(s, k.claimsOut(claims)), expires, b.entries);
  }

  /** challengeV2: the entries go out, their answers travel sealed inside the signed token. */
  method ChallengeV2(s: Suite, k: Codec, c: Config, tape: Tape, iv: Bytes, nonce: Bytes, scope: string, now: int,
                     ttl: nat)
    returns (r: Option<Challenge2>, ghost xs: seq<Expected>)
    requires Lawful(s) && RoundTrips(k) && |iv| == 12
    requires c.minter.Some? ==> Rsw.ValidMinter(c.minter.value)
    ensures r.Some? ==> r.value.expires == now + ttl && IssuedFrom(s, k, c, tape, r.value, xs, scope)
    ensures r.Some? ==> AllConfigured(c) && r.value.entries != []
    ensures AllConfigured(c) && GeneratorWorks(c, tape.generator) && Effective(c) != [] ==> r.Some?
  {
    xs := [];
    var expires := now + ttl;
    var ok, b := BuildEntries(c, tape, expires);
    if !ok {
      return None, xs;
    }
    var ch := SealChallenge(s, k, b, iv, nonce, scope, now, expires);
    xs := b.expected;
    r := Some(ch);
  }

  // ----- format-1 challenges -----

  datatype Challenge1 = Challenge1(
    token: string, expires: int, scope: string, count: nat, size: nat, difficulty: nat, blob: Blob)

  /** When a probe of this challenge ends: its own time to live, or the challenge's. */
  function ProbeEnd(c: Config, now: int, ttl: nat): int {
    now + if c.probeTtl > 0 then c.probeTtl else ttl
  }

  /** The instrumentation of a format-1 challenge; None where it is off or the generator fails. */
  function ProbeOf(c: Config, tape: Tape, now: int, ttl: nat): Option<Generated> {
    if !c.probe then None
    else
      match Generate(tape.generator, 0, c.block, ProbeEnd(c, now, ttl))
      case None => None
      case Some(g) => if Publishable(g, c.block) then Some(Published(g, ProbeEnd(c, now, ttl))) else None
  }

  /** What a format-1 challenge needs. */
  predicate Issuable(c: Config, tape: Tape, now: int, ttl: nat) {
    ValidPowParams(c.count, c.size, c.difficulty) && (c.probe ==> ProbeOf(c, tape, now, ttl).Some?)
  }

  method GenerateProbe(c: Config, tape: Tape, now: int, ttl: nat) returns (ok: bool, g: Option<Generated>)
    ensures ok <==> c.probe ==> ProbeOf(c, tape, now, ttl).Some?
    ensures ok ==> g == ProbeOf(c, tape, now, ttl)
  {
    if !c.probe {
      return true, None;
    }
    var r := RunGenerator(Generate(tape.generator, 0, c.block, ProbeEnd(c, now, ttl)), c.block, ProbeEnd(c, now, ttl));
    if r.Ok? {
      return true, Some(r.value);
    }
    return false, None;
  }

  function BlobOf(g: Option<Generated>): Blob {
    match g
    case None => NoBlob
    case Some(made) => made.blob
  }

  function StoredRecord(c: Config, g: Option<Generated>, scope: string, expires: int): ChallengeRecord
    requires ValidPowParams(c.count, c.size, c.difficulty)
  {
    ChallengeRecord(c.count, c.size, c.difficulty, scope, expires, if g.None? then None else Some(g.value.meta))
  }

  /** The claims open to these settings, and a probe's meta is sealed with the challenge's own expiry. */
  ghost predicate Carries1(s: Suite, k: Codec, ch: Challenge1, g: Option<Generated>) {
    var c := ClaimsOf(s, k, ch.token);
    && c.Some? && c.value.0.f == 0 && c.value.0.exp == ch.expires && c.value.0.sk == ch.scope
    && (c.value.0.c, c.value.0.s, c.value.0.d) == (ch.count, ch.size, ch.difficulty)
    && (g.None? ==> c.value.0.ei == "")
    && (g.Some? ==> MetaOf(s, k, c.value.0) == Some(g.value.meta.(expires := ch.expires)))
  }

  /** The ei claim: a probe's meta, sealed with the challenge's own expiry. */
  function SealedMeta(s: Suite, k: Codec, g: Option<Generated>, expires: int, iv: Bytes): string {
    match g
    case None => ""
    case Some(made) => Encrypted(s, FORMAT1_INFO, k.metaOut(made.meta.(expires := expires)), iv)
  }

  lemma SealedMetaOpens(s: Suite, k: Codec, claims: TokenClaims, g: Option<Generated>, iv: Bytes)
    requires Lawful(s) && RoundTrips(k) && |iv| == 12 && claims.ei == SealedMeta(s, k, g, claims.exp, iv)
    ensures g.None? ==> claims.ei == ""
    ensures g.Some? ==> MetaOf(s, k, claims) == Some(g.value.meta.(expires := claims.exp))
  {
    if g.Some? {
      DecryptOfEncrypt(s, FORMAT1_INFO, k.metaOut(g.value.meta.(expires := claims.exp)), iv);
    }
  }

  lemma SignedCarries(s: Suite, k: Codec, ch: Challenge1, g: Option<Generated>, claims: TokenClaims, iv: Bytes)
    requires Lawful(s) && RoundTrips(k) && |iv| == 12
    requires ch.token == JwtSign(s, k.claimsOut(claims))
    requires claims.f == 0 && claims.exp == ch.expires && claims.sk == ch.scope
    requires (claims.c, claims.s, claims.d) == (ch.count, ch.size, ch.difficulty)
    requires claims.ei == SealedMeta(s, k, g, ch.expires, iv)
    ensures Carries1(s, k, ch, g)
  {
    ClaimsOfSigned(s, k, claims);
    SealedMetaOpens(s, k, claims, g, iv);
  }

  method SealMeta(s: Suite, k: Codec, g: Option<Generated>, expires: int, iv: Bytes) returns (ei: string)
    requires Lawful(s) && |iv| == 12
    ensures ei == SealedMeta(s, k, g, expires, iv)
  {
    ei := "";
    if g.Some? {
      ei := EncryptGcm(s, FORMAT1_INFO, k.metaOut(g.value.meta.(expires := expires)), iv);
    }
  }

  /** The second half of challengeSigned: seal the meta, sign the claims. */
  method SignChallenge(s: Suite, k: Codec, c: Config, g: Option<Generated>, nonce: string, iv: Bytes, scope: string,
                       now: int, ttl: nat)
    returns (ch: Challenge1)
    requires Lawful(s) && RoundTrips(k) && |iv| == 12 && ValidPowParams(c.count, c.size, c.difficulty)
    ensures ch == Challenge1(ch.token, now + ttl, scope, c.count, c.size, c.difficulty, BlobOf(g))
    ensures Carries1(s, k, ch, g)
  {
    var ei := SealMeta(s, k, g, now + ttl, iv);
    var claims := TokenClaims(0, nonce, c.count, c.size, c.difficulty, now + ttl, now, scope, ei, "");
    ch := Challenge1(JwtSign(s, k.claimsOut(claims)), now + ttl, scope, c.count, c.size, c.difficulty, BlobOf(g));
    SignedCarries(s, k, ch, g, claims, iv);
  }

  /** challengeSigned: nothing is stored; the settings travel in the token. */
  method ChallengeSigned(s: Suite, k: Codec, c: Config, tape: Tape, iv: Bytes, scope: string, now: int, ttl: nat)
    returns (r: Option<Challenge1>)
    requires Lawful(s) && RoundTrips(k) && |iv| == 12
    ensures r.Some? <==> Issuable(c, tape, now, ttl)
    ensures r.Some? ==>
              && r.value == Challenge1(r.value.token, now + ttl, scope, c.count, c.size, c.difficulty,
                                       BlobOf(ProbeOf(c, tape, now, ttl)))
              && Carries1(s, k, r.value, ProbeOf(c, tape, now, ttl))
  {
    if !ValidPowParams(c.count, c.size, c.difficulty) {
      return None;
    }
    var nonce := RandomHex(tape, 0, CHALLENGE_TOKEN_BYTES);
    var ok, g := GenerateProbe(c, tape, now, ttl);
    if !ok {
      return None;
    }
    var ch := SignChallenge(s, k, c, g, nonce, iv, scope, now, ttl);
    r := Some(ch);
  }

  // ----- the server object -----

  const CLEANUP_INTERVAL := 300_000
  const CHALLENGE_TOKEN_BYTES := 25

  class Cap {
    const suite: Suite
    const codec: Codec
    const tokenTtl: nat
    const store: MemoryStore
    var lastCleanup: Option<int>

    constructor (suite: Suite, codec: Codec, tokenTtl: nat)
      ensures this.suite == suite && this.codec == codec && this.tokenTtl == tokenTtl && lastCleanup == None
      ensures fresh(store) && store.Contents() == EMPTY
    {
      this.suite, this.codec, this.tokenTtl := suite, codec, tokenTtl;
      this.lastCleanup := None;
      this.store := new MemoryStore();
    }

    /** At most one cleanup per interval, at the first request and then at the first one after it is due. */
    method LazyCleanup(now: int)
      modifies this, store
      ensures var due := old(lastCleanup).None? || now - old(lastCleanup).value >= CLEANUP_INTERVAL;
        && lastCleanup == (if due then Some(now) else old(lastCleanup))
        && store.Contents() == if due then Step(old(store.Contents()), Cleanup(now)).0 else old(store.Contents())
    {
      if lastCleanup.None? || now - lastCleanup.value >= CLEANUP_INTERVAL {
        lastCleanup := Some(now);
        store.Cleanup(now);
      }
    }

    /** challengeStored */
    method ChallengeStored(c: Config, tape: Tape, scope: string, now: int, ttl: nat) returns (r: Option<Challenge1>)
      modifies store
      ensures r.Some? <==> Issuable(c, tape, now, ttl)
      ensures !r.Some? ==> store.Contents() == old(store.Contents())
      ensures r.Some? ==>
                && r.value == Challenge1(RandomHex(tape, 0, CHALLENGE_TOKEN_BYTES), now + ttl, scope,
                                         c.count, c.size, c.difficulty, BlobOf(ProbeOf(c, tape, now, ttl)))
                && store.Contents() == Step(old(store.Contents()),
                     PutChallenge(r.value.token, StoredRecord(c, ProbeOf(c, tape, now, ttl), scope, now + ttl))).0
    {
      if !ValidPowParams(c.count, c.size, c.difficulty) {
        return None;
      }
      var token := RandomHex(tape, 0, CHALLENGE_TOKEN_BYTES);
      var ok, g := GenerateProbe(c, tape, now, ttl);
      if !ok {
        return None;
      }
      store.PutChallenge(token, StoredRecord(c, g, scope, now + ttl));
      r := Some(Challenge1(token, now + ttl, scope, c.count, c.size, c.difficulty, BlobOf(g)));
    }

    /** issueToken with its two random draws. */
    method IssueToken(scope: string, now: int, iat: int, id: Bytes, verifier: Bytes) returns (t: Issued)
      modifies store
      ensures t == Issued(HexOf(id) + ":" + HexOf(verifier), now + tokenTtl, scope, iat)
      ensures store.Contents() ==
              Step(old(store.Contents()),
                   PutToken(StoreKey(suite, HexOf(id), HexOf(verifier)), TokenRecord(scope, now + tokenTtl))).0
    {
      var key := StoreKey(suite, HexOf(id), HexOf(verifier));
      store.PutToken(key, TokenRecord(scope, now + tokenTtl));
      t := Issued(HexOf(id) + ":" + HexOf(verifier), now + tokenTtl, scope, iat);
    }

    /** The end of redeemSigned, from store m to store n: the nonce decides, then the token is issued. */
    predicate Redeemed(claims: TokenClaims, key: string, skipNonce: bool, now: int, id: Bytes, verifier: Bytes,
                       m: State, o: Outcome, n: State)
    {
      var (claimed, answer) := Step(m, ClaimNonce("nonce:" + key, claims.exp, now));
      if !skipNonce && answer == Claimed(false) then o == Refused(AlreadyRedeemed) && n == claimed
      else
        && o == Token(Issued(HexOf(id) + ":" + HexOf(verifier), now + tokenTtl, claims.sk, claims.iat))
        && n == Step(if skipNonce then m else claimed,
             PutToken(StoreKey(suite, HexOf(id), HexOf(verifier)), TokenRecord(claims.sk, now + tokenTtl))).0
    }

    /** redeemSigned: checks first, then the nonce, then the token. */
    method RedeemSigned(req: Request, wanted: string, skipNonce: bool, now: int, id: Bytes, verifier: Bytes)
      returns (o: Outcome)
      modifies store
      ensures var c := ClaimsOf(suite, codec, req.token);
        if c.None? then o == Refused(InvalidToken) && store.Contents() == old(store.Contents())
        else
          var v := SignedVerdict(suite, codec, c.value.0, req, wanted, now);
          if v.Reject? then o == Refused(v.reason) && store.Contents() == old(store.Contents())
          else Redeemed(c.value.0, c.value.1, skipNonce, now, id, verifier, old(store.Contents()), o, store.Contents())
    {
      var c := ClaimsOf(suite, codec, req.token);
      if c.None? {
        return Refused(InvalidToken);
      }
      var (claims, key) := c.value;
      var v := CheckSigned(suite, codec, claims, req, wanted, now);
      if v != Accept {
        return Refused(v.reason);
      }
      if !skipNonce {
        var claimed := store.ClaimNonce("nonce:" + key, claims.exp, now);
        if !claimed {
          return Refused(AlreadyRedeemed);
        }
      }
      var t := IssueToken(claims.sk, now, claims.iat, id, verifier);
      o := Token(t);
    }

    /** What redeemStored asks of a record it has taken out of the store. */
    predicate StoredAccepts(record: ChallengeRecord, req: Request, wanted: string, now: int) {
      && ScopeAdmits(wanted, record.scope)
      && Format1Solutions(req.solutions).Some?
      && SolvesAll(suite, Format1Pairs(req.token, record.count, record.size, record.difficulty),
                   Format1Solutions(req.solutions).value)
      && (record.instr.Some? ==> CheckInstrumentation(record.instr, now, req.instr, req.blocked, req.timeout) == Accept)
    }

    /** The answer with its reason, in the order redeemStored looks. */
    function StoredVerdict(record: ChallengeRecord, req: Request, texts: seq<string>, wanted: string,
                           now: int): Verdict {
      if !ScopeAdmits(wanted, record.scope) then Reject(ScopeMismatch)
      else if |texts| != record.count then Reject(InvalidSolutions)
      else if !SolvesAll(suite, Format1Pairs(req.token, record.count, record.size, record.difficulty), texts)
      then Reject(InvalidSolution)
      else if record.instr.None? then Accept
      else CheckInstrumentation(record.instr, now, req.instr, req.blocked, req.timeout)
    }

    method CheckStored(record: ChallengeRecord, req: Request, texts: seq<string>, wanted: string, now: int)
      returns (v: Verdict)
      requires Format1Solutions(req.solutions) == Some(texts)
      ensures v == StoredVerdict(record, req, texts, wanted, now)
      ensures v == Accept <==> StoredAccepts(record, req, wanted, now)
    {
      if wanted != "" && record.scope != wanted {
        return Reject(ScopeMismatch);
      }
      var f := VerifyFormat1(suite, req.token, record.count, record.size, record.difficulty, texts);
      if f != Accepted {
        return Reject(if f.WrongCount? then InvalidSolutions else InvalidSolution);
      }
      if record.instr.Some? {
        return CheckInstrumentation(record.instr, now, req.instr, req.blocked, req.timeout);
      }
      return Accept;
    }

    /** redeemStored on a parsed submission, from store m to store n. */
    predicate RedeemedStored(req: Request, texts: seq<string>, wanted: string, now: int, id: Bytes, verifier: Bytes,
                             m: State, o: Outcome, n: State)
    {
      var (taken, answer) := Step(m, TakeChallenge(req.token, now));
      if answer.found.None? then o == Refused(ChallengeNotFound) && n == taken
      else
        var record := answer.found.value;
        var v := StoredVerdict(record, req, texts, wanted, now);
        if v.Reject? then o == Refused(v.reason) && n == taken
        else
          && o == Token(Issued(HexOf(id) + ":" + HexOf(verifier), now + tokenTtl, record.scope, 0))
          && n == Step(taken, PutToken(StoreKey(suite, HexOf(id), HexOf(verifier)),
                                       TokenRecord(record.scope, now + tokenTtl))).0
    }

    /** redeemStored: once the record is taken, a failing attempt has burnt the challenge. */
    method RedeemStored(req: Request, wanted: string, now: int, id: Bytes, verifier: Bytes) returns (o: Outcome)
      modifies store
      ensures |req.token| != 2 * CHALLENGE_TOKEN_BYTES ==>
                o == Refused(InvalidToken) && store.Contents() == old(store.Contents())
      ensures |req.token| == 2 * CHALLENGE_TOKEN_BYTES && Format1Solutions(req.solutions).None? ==>
                o == Refused(InvalidSolutions) && store.Contents() == old(store.Contents())
      ensures |req.token| == 2 * CHALLENGE_TOKEN_BYTES && Format1Solutions(req.solutions).Some? ==>
                RedeemedStored(req, Format1Solutions(req.solutions).value, wanted, now, id, verifier,
                               old(store.Contents()), o, store.Contents())
    {
      if |req.token| != 2 * CHALLENGE_TOKEN_BYTES {
        return Refused(InvalidToken);
      }
      var solutions := Format1Solutions(req.solutions);
      if solutions.None? {
        return Refused(InvalidSolutions);
      }
      var record := store.TakeChallenge(req.token, now);
      if record.None? {
        return Refused(ChallengeNotFound);
      }
      var v := CheckStored(record.value, req, solutions.value, wanted, now);
      if v != Accept {
        return Refused(v.reason);
      }
      var t := IssueToken(record.value.scope, now, 0, id, verifier);
      o := Token(t);
    }

    /** Validate without custom signing. */
    method Validate(token: string, scope: string, now: int, keep: bool) returns (ok: bool)
      modifies store
      ensures var key := TokenKey(suite, token);
        if token == "" || key.None? then !ok && store.Contents() == old(store.Contents())
        else (store.Contents(), ok) == (Step(old(store.Contents()), ConsumeToken(key.value, scope, now, keep)).0,
                                        Step(old(store.Contents()),
                                             ConsumeToken(key.value, scope, now, keep)).1.token.Some?)
    {
      if token == "" {
        return false;
      }
      var key := TokenKey(suite, token);
      if key.None? {
        return false;
      }
      var record := store.ConsumeToken(key.value, scope, now, keep);
      ok := record.Some?;
    }
  }

  // ----- end to end -----

  /** A redeemed challenge: the token is good for one validation, and a second redemption was refused. */
  predicate WentWell(first: Outcome, second: Outcome, valid: bool, again: bool, scope: string, why: Reason) {
    && first.Token? && first.issued.scope == scope && second == Refused(why) && valid && !again
  }

  /** This nonce bars a claim at this time. */
  predicate Barred(m: State, nonce: string, now: int) {
    nonce in m.nonces && m.nonces[nonce] > now
  }

  /** redeemSigned on a request that passes every check: only the nonce decides. */
  method RedeemPassing(cap: Cap, req: Request, wanted: string, now: int, id: Bytes, verifier: Bytes)
    returns (o: Outcome)
    requires ClaimsOf(cap.suite, cap.codec, req.token).Some?
    requires PassesChecks(cap.suite, cap.codec, ClaimsOf(cap.suite, cap.codec, req.token).value.0, req, wanted, now)
    modifies cap.store
    ensures var c := ClaimsOf(cap.suite, cap.codec, req.token).value;
      cap.Redeemed(c.0, c.1, false, now, id, verifier, old(cap.store.Contents()), o, cap.store.Contents())
  {
    SignedVerdictAccepts(cap.suite, cap.codec, ClaimsOf(cap.suite, cap.codec, req.token).value.0, req, wanted, now);
    o := cap.RedeemSigned(req, wanted, false, now, id, verifier);
  }

  /** What that leaves behind: a bar until the expiry, and the token. */
  lemma {:induction false} RedeemedMeans(cap: Cap, claims: TokenClaims, key: string, now: int, later: int, id: Bytes,
                                         verifier: Bytes,
                      m: State, o: Outcome, n: State)
    requires cap.Redeemed(claims, key, false, now, id, verifier, m, o, n)
    ensures if Barred(m, "nonce:" + key, now) then o == Refused(AlreadyRedeemed)
      else
        && o == Token(Issued(HexOf(id) + ":" + HexOf(verifier), now + cap.tokenTtl, claims.sk, claims.iat))
        && (later < claims.exp ==> Barred(n, "nonce:" + key, later))
        && var stored := StoreKey(cap.suite, HexOf(id), HexOf(verifier));
           stored in n.tokens && n.tokens[stored] == TokenRecord(claims.sk, now + cap.tokenTtl)
  {
  }

  /** A barred nonce: refused, and the store stays as it is. */
  lemma BarredStays(cap: Cap, claims: TokenClaims, key: string, now: int, id: Bytes, verifier: Bytes,
                    m: State, o: Outcome, n: State)
    requires cap.Redeemed(claims, key, false, now, id, verifier, m, o, n) && Barred(m, "nonce:" + key, now)
    ensures o == Refused(AlreadyRedeemed) && n == m
  {
  }

  /** Two validations of a token whose record is in the store. */
  method ValidateTwice(cap: Cap, id: Bytes, verifier: Bytes, record: TokenRecord, now: int)
    returns (valid: bool, again: bool)
    requires id != [] && verifier != [] && now < record.expires
    requires var key := StoreKey(cap.suite, HexOf(id), HexOf(verifier));
      key in cap.store.tokens && cap.store.tokens[key] == record
    modifies cap.store
    ensures valid && !again
  {
    IssuedKeyIsFound(cap.suite, id, verifier);
    valid := cap.Validate(HexOf(id) + ":" + HexOf(verifier), record.scope, now, false);
    again := cap.Validate(HexOf(id) + ":" + HexOf(verifier), record.scope, now, false);
  }

  /**
   * A request that passes every check, made twice and its token validated twice: if the nonce is not
   * claimed already, it is redeemed once, refused the second time, and the token validates once.
   */
  method RedeemTwice(cap: Cap, req: Request, wanted: string, now: int, later: int, id: Bytes, verifier: Bytes)
    returns (first: Outcome, second: Outcome, valid: bool, again: bool)
    requires ClaimsOf(cap.suite, cap.codec, req.token).Some?
    requires PassesChecks(cap.suite, cap.codec, ClaimsOf(cap.suite, cap.codec, req.token).value.0, req, wanted, now)
    requires PassesChecks(cap.suite, cap.codec, ClaimsOf(cap.suite, cap.codec, req.token).value.0, req, wanted, later)
    requires now <= later < ClaimsOf(cap.suite, cap.codec, req.token).value.0.exp && later < now + cap.tokenTtl
    requires id != [] && verifier != []
    modifies cap.store
    ensures var (claims, key) := ClaimsOf(cap.suite, cap.codec, req.token).value;
      if Barred(old(cap.store.Contents()), "nonce:" + key, now) then first == Refused(AlreadyRedeemed)
      else WentWell(first, second, valid, again, claims.sk, AlreadyRedeemed)
  {
    ghost var c := ClaimsOf(cap.suite, cap.codec, req.token).value;
    ghost var m := cap.store.Contents();
    first := RedeemPassing(cap, req, wanted, now, id, verifier);
    RedeemedMeans(cap, c.0, c.1, now, later, id, verifier, m, first, cap.store.Contents());
    second, valid, again := first, false, false;
    if first.Token? {
      ghost var n := cap.store.Contents();
      second := RedeemPassing(cap, req, wanted, later, id, verifier);
      BarredStays(cap, c.0, c.1, later, id, verifier, n, second, cap.store.Contents());
      valid, again := ValidateTwice(cap, id, verifier, TokenRecord(first.issued.scope, now + cap.tokenTtl), later);
    }
  }

  /** Honest answers to a challenge that challengeV2 issued get through every check before the nonce. */
  lemma HonestRequestPasses(s: Suite, k: Codec, c: Config, tape: Tape, ch: Challenge2, xs: seq<Expected>, scope: string,
                            items: seq<Json>, wanted: string, now: int, userAgent: string)
    requires IssuedFrom(s, k, c, tape, ch, xs, scope)
    requires AllSound(c, tape, Effective(c)) && AllHonest(s, ch.entries, items, userAgent) && userAgent != ""
    requires ch.expires != 0 && now <= ch.expires && ScopeAdmits(wanted, scope)
    ensures var req := Request(ch.token, Arr(items), None, false, false);
      PassesChecks(s, k, ClaimsOf(s, k, ch.token).value.0, req, wanted, now)
  {
    LayoutIsSound(c, tape, Effective(c), EntryCount(c));
    HonestAnswersPass(s, c, tape, Layout(Effective(c), EntryCount(c)), ch.entries, xs, ch.expires, items, now,
                      userAgent);
  }

  /** Format 2 from the issued challenge and its honest answers on. */
  method RedeemHonest(cap: Cap, c: Config, tape: Tape, ch: Challenge2, ghost xs: seq<Expected>, items: seq<Json>,
                      scope: string, wanted: string, now: int, later: int, userAgent: string,
                      id: Bytes, verifier: Bytes)
    returns (first: Outcome, second: Outcome, valid: bool, again: bool)
    requires IssuedFrom(cap.suite, cap.codec, c, tape, ch, xs, scope)
    requires AllSound(c, tape, Effective(c)) && AllHonest(cap.suite, ch.entries, items, userAgent) && userAgent != ""
    requires ch.expires != 0 && now <= later < ch.expires && later < now + cap.tokenTtl && ScopeAdmits(wanted, scope)
    requires id != [] && verifier != []
    modifies cap.store
    ensures var key := "nonce:" + ClaimsOf(cap.suite, cap.codec, ch.token).value.1;
      if Barred(old(cap.store.Contents()), key, now) then first == Refused(AlreadyRedeemed)
      else WentWell(first, second, valid, again, scope, AlreadyRedeemed)
  {
    var req := Request(ch.token, Arr(items), None, false, false);
    HonestRequestPasses(cap.suite, cap.codec, c, tape, ch, xs, scope, items, wanted, now, userAgent);
    HonestRequestPasses(cap.suite, cap.codec, c, tape, ch, xs, scope, items, wanted, later, userAgent);
    first, second, valid, again := RedeemTwice(cap, req, wanted, now, later, id, verifier);
  }

  method SolveIssued(s: Suite, k: Codec, c: Config, tape: Tape, ch: Challenge2, ghost xs: seq<Expected>,
                     ghost scope: string,
                     userAgent: string)
    returns (items: Option<seq<Json>>)
    requires IssuedFrom(s, k, c, tape, ch, xs, scope) && AllSound(c, tape, Effective(c)) && userAgent != ""
    ensures HashesSolvable(s, ch.entries) ==> items.Some?
    ensures items.Some? ==> AllHonest(s, ch.entries, items.value, userAgent)
  {
    items := SolveEntries(s, ch.entries, userAgent);
    ghost var solvable := HashesSolvable(s, ch.entries);
    if solvable {
      LayoutIsSound(c, tape, Effective(c), EntryCount(c));
      ChallengeIsAnswerable(s, c, tape, Layout(Effective(c), EntryCount(c)), ch.entries, xs, ch.expires, userAgent);
    }
  }

  /** The challenge and what an honest client makes of it. */
  method IssueAndSolve(s: Suite, k: Codec, c: Config, tape: Tape, iv: Bytes, nonce: Bytes, scope: string,
                       issuedAt: int, ttl: nat, userAgent: string)
    returns (issued: Option<Challenge2>, items: Option<seq<Json>>, ghost xs: seq<Expected>)
    requires Lawful(s) && RoundTrips(k) && |iv| == 12 && AllSound(c, tape, Effective(c)) && userAgent != ""
    requires c.minter.Some? ==> Rsw.ValidMinter(c.minter.value)
    ensures AllConfigured(c) && GeneratorWorks(c, tape.generator) && Effective(c) != [] ==> issued.Some?
    ensures issued.Some? && HashesSolvable(s, issued.value.entries) ==> items.Some?
    ensures items.Some? ==>
              && issued.Some? && issued.value.expires == issuedAt + ttl
              && IssuedFrom(s, k, c, tape, issued.value, xs, scope)
              && AllHonest(s, issued.value.entries, items.value, userAgent)
  {
    items := None;
    issued, xs := ChallengeV2(s, k, c, tape, iv, nonce, scope, issuedAt, ttl);
    if issued.Some? {
      items := SolveIssued(s, k, c, tape, issued.value, xs, scope, userAgent);
    }
  }

  /**
   * The whole journey of format 2, from the server's settings: the challenge goes out, an honest client
   * solves it unless one of its hash puzzles has no postable nonce, redeems once, is refused a second time,
   * and its token validates once. With the built-in generator nothing is assumed of the scripts.
   */
  method Journey(cap: Cap, c: Config, tape: Tape, iv: Bytes, nonce: Bytes, scope: string, wanted: string,
                 issuedAt: int, ttl: nat, now: int, later: int, userAgent: string, id: Bytes, verifier: Bytes)
    returns (issued: Option<Challenge2>, items: Option<seq<Json>>,
             first: Outcome, second: Outcome, valid: bool, again: bool)
    requires Lawful(cap.suite) && RoundTrips(cap.codec) && |iv| == 12 && id != [] && verifier != []
    requires c.minter.Some? ==> Rsw.ValidMinter(c.minter.value)
    requires AllSound(c, tape, Effective(c)) && userAgent != "" && ScopeAdmits(wanted, scope)
    requires issuedAt + ttl != 0 && now <= later < issuedAt + ttl && later < now + cap.tokenTtl
    modifies cap.store
    ensures AllConfigured(c) && GeneratorWorks(c, tape.generator) && Effective(c) != [] ==> issued.Some?
    ensures issued.Some? && HashesSolvable(cap.suite, issued.value.entries) ==> items.Some?
    ensures items.Some? ==>
              && issued.Some? && ClaimsOf(cap.suite, cap.codec, issued.value.token).Some?
              && var key := "nonce:" + ClaimsOf(cap.suite, cap.codec, issued.value.token).value.1;
                 if Barred(old(cap.store.Contents()), key, now) then first == Refused(AlreadyRedeemed)
                 else WentWell(first, second, valid, again, scope, AlreadyRedeemed)
  {
    ghost var xs;
    first, second, valid, again := Refused(MissingToken), Refused(MissingToken), false, false;
    issued, items, xs := IssueAndSolve(cap.suite, cap.codec, c, tape, iv, nonce, scope, issuedAt, ttl, userAgent);
    if items.Some? {
      first, second, valid, again :=
        RedeemHonest(cap, c, tape, issued.value, xs, items.value, scope, wanted, now, later, userAgent, id, verifier);
    }
  }

  // ----- end to end, format 1 -----

  /** An honest answer to a format-1 challenge. */
  predicate Answers1(s: Suite, ch: Challenge1, req: Request, userAgent: string) {
    && req.token == ch.token && !req.blocked && !req.timeout
    && Format1Solutions(req.solutions).Some?
    && SolvesAll(s, Format1Pairs(ch.token, ch.count, ch.size, ch.difficulty), Format1Solutions(req.solutions).value)
    && req.instr == BrowserReport(ch.blob, userAgent)
  }

  /** SolveChallenge for format 1, with a browser for the script. */
  method Solve1(s: Suite, ch: Challenge1, userAgent: string) returns (req: Option<Request>)
    ensures req.Some? <==> AllSolvable(s, Format1Pairs(ch.token, ch.count, ch.size, ch.difficulty))
    ensures req.Some? ==> Answers1(s, ch, req.value, userAgent)
  {
    var ps := AllPairs(ch.token, ch.count, ch.size, ch.difficulty);
    var posted := SolvePairs(s, ps);
    if posted.None? {
      return None;
    }
    return Some(Request(ch.token, posted.value, BrowserReport(ch.blob, userAgent), false, false));
  }

  /** The meta kept for a probe accepts the browser's report. */
  lemma ProbeAccepted(c: Config, tape: Tape, issuedAt: int, ttl: nat, expires: int, now: int, userAgent: string)
    requires FaithfulGenerator(tape.generator) && userAgent != ""
    requires ProbeOf(c, tape, issuedAt, ttl).Some? && (expires == 0 || now <= expires)
    ensures var g := ProbeOf(c, tape, issuedAt, ttl).value;
      var meta := Some(g.meta.(expires := expires));
      CheckInstrumentation(meta, now, BrowserReport(g.blob, userAgent), false, false) == Accept
  {
    var g := ProbeOf(c, tape, issuedAt, ttl).value;
    GeneratedIsFaithful(tape.generator, 0, c.block, ProbeEnd(c, issuedAt, ttl));
    BlobAccepted(g.blob, g.meta.(expires := expires), c.block, now, userAgent);
  }

  lemma Signed1Passes(s: Suite, k: Codec, c: Config, tape: Tape, ch: Challenge1, issuedAt: int, ttl: nat, req: Request,
                      wanted: string, now: int, userAgent: string)
    requires Carries1(s, k, ch, ProbeOf(c, tape, issuedAt, ttl)) && ch.blob == BlobOf(ProbeOf(c, tape, issuedAt, ttl))
    requires ValidPowParams(ch.count, ch.size, ch.difficulty)
    requires (c.probe ==> FaithfulGenerator(tape.generator)) && userAgent != "" && Answers1(s, ch, req, userAgent)
    requires ch.expires != 0 && now <= ch.expires && ScopeAdmits(wanted, ch.scope)
    ensures PassesChecks(s, k, ClaimsOf(s, k, ch.token).value.0, req, wanted, now)
  {
    if ProbeOf(c, tape, issuedAt, ttl).Some? {
      ProbeAccepted(c, tape, issuedAt, ttl, ch.expires, now, userAgent);
    }
  }

  /** The journey of a signed format-1 challenge. */
  method JourneySigned1(cap: Cap, c: Config, tape: Tape, iv: Bytes, scope: string, wanted: string,
                        issuedAt: int, ttl: nat, now: int, later: int, userAgent: string, id: Bytes, verifier: Bytes)
    returns (issued: Option<Challenge1>, req: Option<Request>,
             first: Outcome, second: Outcome, valid: bool, again: bool)
    requires Lawful(cap.suite) && RoundTrips(cap.codec) && |iv| == 12 && id != [] && verifier != []
    requires (c.probe ==> FaithfulGenerator(tape.generator)) && userAgent != "" && ScopeAdmits(wanted, scope)
    requires issuedAt + ttl != 0 && now <= later < issuedAt + ttl && later < now + cap.tokenTtl
    modifies cap.store
    ensures issued.Some? <==> Issuable(c, tape, issuedAt, ttl)
    ensures req.Some? <==>
              issued.Some? && AllSolvable(cap.suite, Format1Pairs(issued.value.token, c.count, c.size, c.difficulty))
    ensures req.Some? ==>
              && ClaimsOf(cap.suite, cap.codec, issued.value.token).Some?
              && var key := "nonce:" + ClaimsOf(cap.suite, cap.codec, issued.value.token).value.1;
                 if Barred(old(cap.store.Contents()), key, now) then first == Refused(AlreadyRedeemed)
                 else WentWell(first, second, valid, again, scope, AlreadyRedeemed)
  {
    req, first, second, valid, again := None, Refused(MissingToken), Refused(MissingToken), false, false;
    issued := ChallengeSigned(cap.suite, cap.codec, c, tape, iv, scope, issuedAt, ttl);
    if issued.Some? {
      var ch := issued.value;
      req := Solve1(cap.suite, ch, userAgent);
      if req.Some? {
        Signed1Passes(cap.suite, cap.codec, c, tape, ch, issuedAt, ttl, req.value, wanted, now, userAgent);
        Signed1Passes(cap.suite, cap.codec, c, tape, ch, issuedAt, ttl, req.value, wanted, later, userAgent);
        first, second, valid, again := RedeemTwice(cap, req.value, wanted, now, later, id, verifier);
      }
    }
  }

  /** Put, take, issue: the challenge is gone and the token is there. */
  lemma AfterTakeAndPut(m: State, token: string, challenge: ChallengeRecord, key: string, record: TokenRecord, now: int)
    requires token in m.challenges && m.challenges[token] == challenge && now < challenge.expires
    ensures var (taken, answer) := Step(m, TakeChallenge(token, now));
      var m2 := Step(taken, PutToken(key, record)).0;
      && answer == Challenge(Some(challenge))
      && token !in m2.challenges && key in m2.tokens && m2.tokens[key] == record
  {
  }

  /** An honest answer satisfies what redeemStored asks, while the probe's own time has not run out. */
  lemma Stored1Passes(cap: Cap, c: Config, tape: Tape, ch: Challenge1, issuedAt: int, ttl: nat, req: Request,
                      wanted: string, now: int, userAgent: string)
    requires ValidPowParams(c.count, c.size, c.difficulty)
    requires (ch.count, ch.size, ch.difficulty) == (c.count, c.size, c.difficulty)
    requires ch.blob == BlobOf(ProbeOf(c, tape, issuedAt, ttl)) && Answers1(cap.suite, ch, req, userAgent)
    requires (c.probe ==> FaithfulGenerator(tape.generator)) && userAgent != "" && ScopeAdmits(wanted, ch.scope)
    requires ProbeOf(c, tape, issuedAt, ttl).Some? ==>
               var end := ProbeOf(c, tape, issuedAt, ttl).value.meta.expires; end == 0 || now <= end
    ensures var texts := Format1Solutions(req.solutions).value;
      var record := StoredRecord(c, ProbeOf(c, tape, issuedAt, ttl), ch.scope, ch.expires);
      cap.StoredVerdict(record, req, texts, wanted, now) == Accept
  {
    var g := ProbeOf(c, tape, issuedAt, ttl);
    if g.Some? {
      ProbeAccepted(c, tape, issuedAt, ttl, g.value.meta.expires, now, userAgent);
      assert g.value.meta.(expires := g.value.meta.expires) == g.value.meta;
    }
  }

  /** A stored challenge redeemed with an accepted answer, and redeemed again. */
  method RedeemStoredTwice(cap: Cap, req: Request, record: ChallengeRecord, wanted: string, now: int, later: int,
                           id: Bytes, verifier: Bytes)
    returns (first: Outcome, second: Outcome, valid: bool, again: bool)
    requires |req.token| == 2 * CHALLENGE_TOKEN_BYTES && Format1Solutions(req.solutions).Some?
    requires req.token in cap.store.challenges && cap.store.challenges[req.token] == record && now < record.expires
    requires cap.StoredVerdict(record, req, Format1Solutions(req.solutions).value, wanted, now) == Accept
    requires now <= later < now + cap.tokenTtl && id != [] && verifier != []
    modifies cap.store
    ensures WentWell(first, second, valid, again, record.scope, ChallengeNotFound)
  {
    var issued := TokenRecord(record.scope, now + cap.tokenTtl);
    ghost var m := cap.store.Contents();
    AfterTakeAndPut(m, req.token, record, StoreKey(cap.suite, HexOf(id), HexOf(verifier)), issued, now);
    first := cap.RedeemStored(req, wanted, now, id, verifier);
    second := cap.RedeemStored(req, wanted, later, id, verifier);
    valid, again := ValidateTwice(cap, id, verifier, issued, later);
  }

  /** The journey of a stored challenge: once redeemed it is gone. */
  method JourneyStored(cap: Cap, c: Config, tape: Tape, scope: string, wanted: string,
                       issuedAt: int, ttl: nat, now: int, later: int, userAgent: string, id: Bytes, verifier: Bytes)
    returns (issued: Option<Challenge1>, req: Option<Request>,
             first: Outcome, second: Outcome, valid: bool, again: bool)
    requires id != [] && verifier != [] && userAgent != "" && ScopeAdmits(wanted, scope)
    requires c.probe ==> FaithfulGenerator(tape.generator)
    requires now <= later && now < issuedAt + ttl && later < now + cap.tokenTtl
    requires ProbeOf(c, tape, issuedAt, ttl).Some? ==>
               var end := ProbeOf(c, tape, issuedAt, ttl).value.meta.expires; end == 0 || now <= end
    modifies cap.store
    ensures issued.Some? <==> Issuable(c, tape, issuedAt, ttl)
    ensures req.Some? <==>
              issued.Some? && AllSolvable(cap.suite, Format1Pairs(issued.value.token, c.count, c.size, c.difficulty))
    ensures req.Some? ==> WentWell(first, second, valid, again, scope, ChallengeNotFound)
  {
    req, first, second, valid, again := None, Refused(MissingToken), Refused(MissingToken), false, false;
    issued := cap.ChallengeStored(c, tape, scope, issuedAt, ttl);
    if issued.Some? {
      var ch := issued.value;
      req := Solve1(cap.suite, ch, userAgent);
      if req.Some? {
        Stored1Passes(cap, c, tape, ch, issuedAt, ttl, req.value, wanted, now, userAgent);
        var record := StoredRecord(c, ProbeOf(c, tape, issuedAt, ttl), scope, issuedAt + ttl);
        first, second, valid, again := RedeemStoredTwice(cap, req.value, record, wanted, now, later, id, verifier);
      }
    }
  }
}
