/** Honest clients are accepted: whatever challengeV2 hands out, its honest answers pass verifyV2. */
module Completeness {
  import opened Base64
  import opened Challenge
  import opened Checks
  import opened Crypto
  import opened Instrumentation
  import opened Int32
  import opened JsNumber
  import opened JsProgram
  import opened Json
  import opened Numerals
  import opened Hashcash
  import opened RswWire
  import Rsw
  import Store

  // ----- what an honest client answers -----

  function JsonOf(n: int): Json {
    if -0x4000_0000_0000_0000 <= n <= 0x4000_0000_0000_0000 then Num(n) else Null
  }

  /** `{"<var>":<var>, ...}` at the end of the program */
  function StateOf(env: Env, vars: seq<string>): map<string, Json> {
    map name | name in vars && name in env :: JsonOf(Val(env[name]))
  }

  function ReportOf(id: string, state: map<string, Json>): Json {
    Obj(map["i" := Str(id), "state" := Obj(state)])
  }

  /** What the script reports in an honest browser with this user agent. */
  function BrowserReport(blob: Blob, userAgent: string): Option<Json> {
    match blob
    case NoBlob => None
    case Program(d) =>
      if !ValidDraws(d) then None
      else
        (match RunProgram(d, userAgent)
        case None => None
        case Some(env) => Some(ReportOf(d.id, StateOf(env, d.vars))))
    case Custom(id, report) => Some(ReportOf(id, map name | name in report :: JsonOf(report[name])))
  }

  /** SolvePoW, SolveRSW, or running the script in a browser that sends neither flag. */
  ghost predicate Honest(s: Suite, e: Entry, j: Json, userAgent: string) {
    match e
    case PowEntry(salt, target) =>
      exists n: JsonInt :: 0 <= n <= MAX_EXACT && IsLeastNonce(s, salt, target, n) && j == Obj(map["nonce" := Num(n)])
    case RswEntry(n, x, t) =>
      var modulus, base := ParseHexInt(n), ParseHexInt(x);
      && modulus.Some? && base.Some? && modulus.value > 0
      && Rsw.Squared(base.value, t, modulus.value) >= 0
      && j == Obj(map["y" := Str(Digits(Rsw.Squared(base.value, t, modulus.value), 16))])
    case ProbeEntry(blob) =>
      BrowserReport(blob, userAgent).Some? && j == Obj(map["instr" := BrowserReport(blob, userAgent).value])
  }

  /** The generator kept the answers its script gives; GenerateInstrumentation does, for its own programs. */
  predicate Faithful(blob: Blob, meta: Store.InstrumentationMeta) {
    match blob
    case NoBlob => false
    case Program(d) => ValidDraws(d) && meta.id == d.id && meta.vars == d.vars && meta.expectedVals == Shadow(d)
    case Custom(id, report) =>
      && meta.id == id && |meta.vars| == |meta.expectedVals|
      && forall i :: 0 <= i < |meta.vars| ==>
           && meta.vars[i] in report && report[meta.vars[i]] == meta.expectedVals[i]
           && -TWO31 <= meta.expectedVals[i] < TWO31
  }

  /** A caller's own generator has to be; the built-in one is. */
  ghost predicate FaithfulGenerator(g: Generator) {
    g.CustomGenerator? ==>
      forall k: nat :: g.results(k).Some? ==> Faithful(g.results(k).value.blob, g.results(k).value.meta)
  }

  lemma GeneratedIsFaithful(g: Generator, k: nat, block: bool, expires: int)
    requires FaithfulGenerator(g) && Generate(g, k, block, expires).Some?
    ensures var made := Generate(g, k, block, expires).value; Faithful(made.blob, made.meta)
  {
    if g.CustomGenerator? {
      assert g.results(k).Some?;
    }
  }

  // ----- one position -----

  lemma PowComplete(s: Suite, salt: string, target: string, n: JsonInt, now: int)
    requires 0 <= n <= MAX_EXACT && IsLeastNonce(s, salt, target, n)
    ensures EntryVerdict(s, ExpectPow(salt, target), Obj(map["nonce" := Num(n)]), now) == Accept
  {
    NonceSurvivesIff(n);
    var fields: map<string, Json> := map["nonce" := Num(n)];
    assert "y" !in fields && "blocked" !in fields && "timeout" !in fields && "instr" !in fields;
    assert ParseSolution(Obj(fields)) == Some(Solution(Some(Num(n)), "", None, false, false));
    assert Solves(s, salt, target, n);
  }

  /** An rsw position accepts a printed number exactly when it is the minted answer. */
  lemma {:induction false} RswVerdict(s: Suite, v: nat, w: nat, bytes: nat, now: int)
    ensures var posted := Obj(map["y" := Str(Digits(w, 16))]);
      EntryVerdict(s, ExpectRsw(PaddedHex(v, bytes)), posted, now) == Accept <==> v == w
  {
    var text := Digits(w, 16);
    var fields: map<string, Json> := map["y" := Str(text)];
    assert "nonce" !in fields && "blocked" !in fields && "timeout" !in fields && "instr" !in fields;
    assert ParseSolution(Obj(fields)) == Some(Solution(None, text, None, false, false));
    SolverSpelling(v, w, bytes);
  }

  /** The client that squares its way from the minted puzzle reaches the minted answer, whatever the draw. */
  lemma MintedAnswerIsReached(m: Rsw.Minter, r: nat)
    requires Rsw.ValidMinter(m) && Rsw.NeverLoses(m)
    ensures var d := Rsw.Mint(m, r); d.n > 0 && Rsw.Squared(d.x, d.iterations, d.n) == d.expectedY
  {
    Rsw.MintedResidues(m, r);
    Rsw.ExactForAllIff(m);
    assert Rsw.ExactFor(m, r);
  }

  /** A client that is sent these numbers in hex reads them back, and its own squaring is accepted. */
  lemma SquaringIsAccepted(s: Suite, n: nat, x: nat, y: nat, t: nat, bytes: nat, j: Json, now: int, userAgent: string)
    requires n > 0 && Rsw.Squared(x, t, n) == y
    requires Honest(s, RswEntry(PaddedHex(n, bytes), PaddedHex(x, bytes), t), j, userAgent)
    ensures EntryVerdict(s, ExpectRsw(PaddedHex(y, bytes)), j, now) == Accept
  {
    ParseOfPaddedHex(n, bytes);
    ParseOfPaddedHex(x, bytes);
    RswVerdict(s, y, y, bytes, now);
  }

  lemma RswComplete(s: Suite, m: Rsw.Minter, bytes: nat, r: nat, e: Entry, x: Expected, j: Json, now: int,
                    userAgent: string)
    requires Rsw.ValidMinter(m) && Rsw.NeverLoses(m) && MintedPair(m, bytes, r, e, x) && Honest(s, e, j, userAgent)
    ensures EntryVerdict(s, x, j, now) == Accept
  {
    MintedAnswerIsReached(m, r);
    var d := Rsw.Mint(m, r);
    SquaringIsAccepted(s, d.n, d.x, d.expectedY, d.iterations, bytes, j, now, userAgent);
  }

  lemma ReportAccepted(meta: Store.InstrumentationMeta, state: map<string, Json>, now: int)
    requires meta.id != "" && meta.vars != [] && (meta.expires == 0 || now <= meta.expires) && AllReported(meta, state)
    ensures CheckInstrumentation(Some(meta), now, Some(ReportOf(meta.id, state)), false, false) == Accept
  {
    var inner: map<string, Json> := map["i" := Str(meta.id), "state" := Obj(state)];
    assert "ts" !in inner;
    assert ParsePayload(inner) == Some(Payload(meta.id, Some(state)));
  }

  lemma NumberReported(n: int)
    requires -TWO31 <= n < TWO31
    ensures FloatOf(JsonOf(n)) == Some(n)
  {
    RoundExact(n);
  }

  lemma ProgramReports(d: Draws, meta: Store.InstrumentationMeta, userAgent: string)
    requires ValidDraws(d) && Distinct(d.vars) && userAgent != ""
    requires Faithful(Program(d), meta)
    ensures RunProgram(d, userAgent).Some?
    ensures AllReported(meta, StateOf(RunProgram(d, userAgent).value, d.vars))
  {
    ProgramMeetsShadow(d, userAgent);
    var env := RunProgram(d, userAgent).value;
    forall i | 0 <= i < |meta.vars|
      ensures Reports(StateOf(env, d.vars), meta.vars[i], meta.expectedVals[i])
    {
      assert d.vars[i] in env && env[d.vars[i]] == Fin(Shadow(d)[i]);
      NumberReported(Shadow(d)[i]);
    }
  }

  lemma CustomReports(id: string, report: map<string, int>, meta: Store.InstrumentationMeta)
    requires Faithful(Custom(id, report), meta)
    ensures AllReported(meta, map name | name in report :: JsonOf(report[name]))
  {
    var state: map<string, Json> := map name | name in report :: JsonOf(report[name]);
    forall i | 0 <= i < |meta.vars|
      ensures Reports(state, meta.vars[i], meta.expectedVals[i])
    {
      NumberReported(meta.expectedVals[i]);
    }
  }

  /** The report of a generated script satisfies checkInstrumentation. */
  lemma BlobAccepted(blob: Blob, meta: Store.InstrumentationMeta, block: bool, now: int, userAgent: string)
    requires Publishable(Generated(blob, meta), block) && Faithful(blob, meta) && userAgent != ""
    requires meta.expires == 0 || now <= meta.expires
    ensures BrowserReport(blob, userAgent).Some?
    ensures CheckInstrumentation(Some(meta), now, BrowserReport(blob, userAgent), false, false) == Accept
  {
    match blob
    case Program(d) =>
      ProgramReports(d, meta, userAgent);
      ReportAccepted(meta, StateOf(RunProgram(d, userAgent).value, d.vars), now);
    case Custom(id, report) =>
      CustomReports(id, report, meta);
      ReportAccepted(meta, map name | name in report :: JsonOf(report[name]), now);
  }

  lemma ProbeVerdict(s: Suite, meta: Option<Store.InstrumentationMeta>, report: Json, now: int)
    ensures EntryVerdict(s, ExpectInstrumentation(meta), Obj(map["instr" := report]), now)
         == CheckInstrumentation(meta, now, Some(report), false, false)
  {
    var fields: map<string, Json> := map["instr" := report];
    assert "nonce" !in fields && "blocked" !in fields && "timeout" !in fields && "y" !in fields;
    assert ParseSolution(Obj(fields)) == Some(Solution(None, "", Some(report), false, false));
  }

  lemma ProbeComplete(s: Suite, c: Config, tape: Tape, calls: nat, e: Entry, x: Expected, expires: int,
                      j: Json, now: int, userAgent: string)
    requires ProbePair(c, Generate(tape.generator, calls, c.block, expires), e, x, expires)
    requires FaithfulGenerator(tape.generator) && now <= expires && userAgent != ""
    ensures BrowserReport(e.blob, userAgent).Some?
    ensures Honest(s, e, j, userAgent) ==> EntryVerdict(s, x, j, now) == Accept
  {
    GeneratedIsFaithful(tape.generator, calls, c.block, expires);
    BlobAccepted(e.blob, x.meta.value, c.block, now, userAgent);
    ProbeVerdict(s, x.meta, BrowserReport(e.blob, userAgent).value, now);
  }

  /** What completeness asks of the server's settings, protocol by protocol. */
  ghost predicate Sound(c: Config, tape: Tape, p: ProtocolName) {
    match p
    case RswPuzzle => c.minter.Some? ==> Rsw.ValidMinter(c.minter.value) && Rsw.NeverLoses(c.minter.value)
    case Probe => FaithfulGenerator(tape.generator)
    case _ => true
  }

  lemma EntryComplete(s: Suite, c: Config, tape: Tape, p: ProtocolName, at: Cursor, e: Entry, x: Expected, expires: int,
                      j: Json, now: int, userAgent: string)
    requires PairedAt(c, tape, p, at, e, x, expires) && Sound(c, tape, p) && Honest(s, e, j, userAgent)
    requires now <= expires && userAgent != ""
    ensures EntryVerdict(s, x, j, now) == Accept
  {
    match p
    case Sha256Pow =>
      var n: JsonInt :| 0 <= n <= MAX_EXACT && IsLeastNonce(s, e.salt, e.target, n) && j == Obj(map["nonce" := Num(n)]);
      PowComplete(s, e.salt, e.target, n, now);
    case RswPuzzle =>
      RswComplete(s, c.minter.value, c.modulusBytes, NatOf(Draw(tape, at.pos, 32)), e, x, j, now, userAgent);
    case Probe => ProbeComplete(s, c, tape, at.calls, e, x, expires, j, now, userAgent);
  }

  // ----- all positions -----

  ghost predicate AllHonest(s: Suite, es: seq<Entry>, items: seq<Json>, userAgent: string) {
    |items| == |es| && forall i :: 0 <= i < |es| ==> Honest(s, es[i], items[i], userAgent)
  }

  ghost predicate AllSound(c: Config, tape: Tape, protocols: seq<ProtocolName>) {
    forall p :: p in protocols ==> Sound(c, tape, p)
  }

  lemma {:induction false} LayoutIsSound(c: Config, tape: Tape, protocols: seq<ProtocolName>, count: nat)
    requires AllSound(c, tape, protocols)
    ensures AllSound(c, tape, Layout(protocols, count))
  {
    if protocols != [] {
      var last := protocols[|protocols| - 1];
      assert last in protocols;
      LayoutIsSound(c, tape, protocols[..|protocols| - 1], count);
      assert forall p :: p in Filled(last, count) ==> p == last;
    }
  }

  /**
   * Completeness: for every protocol list and every count, the honest answers to the puzzles challengeV2
   * handed out pass verifyV2 at every position, at any time up to the expiry.
   */
  lemma HonestAnswersPass(s: Suite, c: Config, tape: Tape, layout: seq<ProtocolName>, es: seq<Entry>, xs: seq<Expected>,
                          expires: int, items: seq<Json>, now: int, userAgent: string)
    requires AllPaired(c, tape, layout, es, xs, expires) && AllSound(c, tape, layout)
    requires AllHonest(s, es, items, userAgent)
    requires now <= expires && userAgent != ""
    ensures |items| == |xs| && AcceptsUpTo(s, xs, items, now, |xs|)
  {
    forall i | 0 <= i < |xs|
      ensures EntryVerdict(s, xs[i], items[i], now) == Accept
    {
      assert PairedIn(c, tape, layout, es, xs, expires, i) && layout[i] in layout;
      EntryComplete(s, c, tape, layout[i], CursorAt(c, layout[..i]), es[i], xs[i], expires, items[i], now, userAgent);
    }
  }

  // ----- the honest client -----

  /** The client has an answer: hashing finds a nonce it can post, numbers parse, scripts report. */
  ghost predicate Answerable(s: Suite, e: Entry, userAgent: string) {
    match e
    case PowEntry(salt, target) => SolvableBelow(s, salt, target, NONCE_LIMIT)
    case RswEntry(n, x, _) => ParseHexInt(n).Some? && ParseHexInt(n).value > 0 && ParseHexInt(x).Some?
    case ProbeEntry(blob) => BrowserReport(blob, userAgent).Some?
  }

  method SolveEntry(s: Suite, e: Entry, userAgent: string) returns (j: Option<Json>)
    ensures j.Some? <==> Answerable(s, e, userAgent)
    ensures j.Some? ==> Honest(s, e, j.value, userAgent)
  {
    match e {
      case PowEntry(salt, target) =>
        var nonce := SolvePow(s, salt, target, NONCE_LIMIT);
        if nonce.None? {
          return None;
        }
        var n: JsonInt := nonce.value;
        return Some(Obj(map["nonce" := Num(n)]));
      case RswEntry(n, x, t) =>
        var modulus, base := ParseHexInt(n), ParseHexInt(x);
        if modulus.None? || base.None? || modulus.value == 0 {
          return None;
        }
        var y := Rsw.SolveRsw(modulus.value, base.value, t);
        return Some(Obj(map["y" := Str(Digits(y, 16))]));
      case ProbeEntry(blob) =>
        var report := BrowserReport(blob, userAgent);
        if report.None? {
          return None;
        }
        return Some(Obj(map["instr" := report.value]));
    }
  }

  /** SolveChallenge for format 2, with a browser for the scripts. */
  method SolveEntries(s: Suite, es: seq<Entry>, userAgent: string) returns (items: Option<seq<Json>>)
    ensures items.Some? <==> forall i :: 0 <= i < |es| ==> Answerable(s, es[i], userAgent)
    ensures items.Some? ==> AllHonest(s, es, items.value, userAgent)
  {
    var done: seq<Json> := [];
    for i := 0 to |es|
      invariant |done| == i
      invariant forall k :: 0 <= k < i ==> Answerable(s, es[k], userAgent) && Honest(s, es[k], done[k], userAgent)
    {
      var j := SolveEntry(s, es[i], userAgent);
      if j.None? {
        return None;
      }
      done := done + [j.value];
    }
    return Some(done);
  }

  /** Every hash puzzle of the challenge has a solution the client may post. */
  ghost predicate HashesSolvable(s: Suite, es: seq<Entry>) {
    forall i :: 0 <= i < |es| && es[i].PowEntry? ==> SolvableBelow(s, es[i].salt, es[i].target, NONCE_LIMIT)
  }

  lemma PairedIsAnswerable(s: Suite, c: Config, tape: Tape, p: ProtocolName, at: Cursor, e: Entry, x: Expected,
                           expires: int,
                           userAgent: string)
    requires PairedAt(c, tape, p, at, e, x, expires) && Sound(c, tape, p) && userAgent != ""
    requires e.PowEntry? ==> SolvableBelow(s, e.salt, e.target, NONCE_LIMIT)
    ensures Answerable(s, e, userAgent)
  {
    match p
    case Sha256Pow =>
    case RswPuzzle =>
      var d := Rsw.Mint(c.minter.value, NatOf(Draw(tape, at.pos, 32)));
      Rsw.MintedResidues(c.minter.value, NatOf(Draw(tape, at.pos, 32)));
      ParseOfPaddedHex(d.n, c.modulusBytes);
      ParseOfPaddedHex(d.x, c.modulusBytes);
    case Probe => ProbeComplete(s, c, tape, at.calls, e, x, expires, Null, expires, userAgent);
  }

  /** So only the hash puzzles can defeat the client. */
  lemma ChallengeIsAnswerable(s: Suite, c: Config, tape: Tape, layout: seq<ProtocolName>, es: seq<Entry>,
                              xs: seq<Expected>,
                              expires: int, userAgent: string)
    requires AllPaired(c, tape, layout, es, xs, expires) && AllSound(c, tape, layout) && userAgent != ""
    requires HashesSolvable(s, es)
    ensures forall i :: 0 <= i < |es| ==> Answerable(s, es[i], userAgent)
  {
    forall i | 0 <= i < |es|
      ensures Answerable(s, es[i], userAgent)
    {
      assert PairedIn(c, tape, layout, es, xs, expires, i) && layout[i] in layout;
      PairedIsAnswerable(s, c, tape, layout[i], CursorAt(c, layout[..i]), es[i], xs[i], expires, userAgent);
    }
  }
}
