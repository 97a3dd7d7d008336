/** The redeem-time checks of format 2 and of instrumentation (cap.go, instrumentation.go). */
module Checks {
  import opened Crypto
  import opened JsNumber
  import opened Json
  import opened Numerals
  import opened Hashcash
  import opened RswWire
  import opened Store

  /** The Reason codes this part of the code returns. */
  datatype Reason =
    | InvalidToken | MissingSolutions | InvalidSolutions | InvalidSolution
    | MissingToken | ScopeMismatch | Expired | AlreadyRedeemed | ChallengeNotFound
    | InstrCorrupted | InstrExpired | InstrAutomated | InstrTimeout | InstrMissing
    | MissingMeta | MissingOutput | IdMismatch | InvalidState | InvalidMeta | FailedChallenge

  datatype Verdict = Accept | Reject(reason: Reason)

  // ----- instrumentation -----

  /** json.Unmarshal into a float64; null leaves 0. */
  function FloatOf(j: Json): Option<int> {
    match j
    case Num(n) => Some(Round(n))
    case Null => Some(0)
    case _ => None
  }

  /** The reported state holds the expected value under this name. */
  predicate Reports(state: map<string, Json>, name: string, expected: int) {
    name in state && FloatOf(state[name]) == Some(expected)
  }

  datatype Payload = Payload(i: string, state: Option<map<string, Json>>)

  /** json.Unmarshal into InstrumentationResult: absent and null fields keep their zero values. */
  function ParsePayload(fields: map<string, Json>): Option<Payload> {
    var i := match Field(fields, "i")
      case None => Some("")
      case Some(Null) => Some("")
      case Some(Str(s)) => Some(s)
      case _ => None;
    var state := match Field(fields, "state")
      case None => Some(None)
      case Some(Null) => Some(None)
      case Some(Obj(m)) => Some(Some(m))
      case _ => None;
    var ts := match Field(fields, "ts")
      case None => true
      case Some(Null) => true
      case Some(Num(_)) => true
      case _ => false;
    if i.None? || state.None? || !ts then None else Some(Payload(i.value, state.value))
  }

  predicate AllReported(meta: InstrumentationMeta, state: map<string, Json>) {
    && |meta.vars| == |meta.expectedVals|
    && forall i :: 0 <= i < |meta.vars| ==> Reports(state, meta.vars[i], meta.expectedVals[i])
  }

  /** VerifyInstrumentationResult */
  method VerifyInstrumentationResult(meta: InstrumentationMeta, result: Json) returns (v: Verdict)
    ensures v == ResultVerdict(meta, result)
  {
    if meta.id == "" {
      return Reject(MissingMeta);
    }
    if !result.Obj? {
      return Reject(MissingOutput);
    }
    var payload := ParsePayload(result.fields);
    if payload.None? {
      return Reject(MissingOutput);
    }
    if payload.value.i != meta.id {
      return Reject(IdMismatch);
    }
    if payload.value.state.None? {
      return Reject(InvalidState);
    }
    if |meta.vars| == 0 || |meta.vars| != |meta.expectedVals| {
      return Reject(InvalidMeta);
    }
    var state := payload.value.state.value;
    for i := 0 to |meta.vars|
      invariant forall k :: 0 <= k < i ==> Reports(state, meta.vars[k], meta.expectedVals[k])
    {
      if !Reports(state, meta.vars[i], meta.expectedVals[i]) {
        return Reject(FailedChallenge);
      }
    }
    return Accept;
  }

  function ResultVerdict(meta: InstrumentationMeta, result: Json): Verdict {
    if meta.id == "" then Reject(MissingMeta)
    else if !result.Obj? then Reject(MissingOutput)
    else
      match ParsePayload(result.fields)
      case None => Reject(MissingOutput)
      case Some(p) =>
        if p.i != meta.id then Reject(IdMismatch)
        else if p.state.None? then Reject(InvalidState)
        else if |meta.vars| == 0 || |meta.vars| != |meta.expectedVals| then Reject(InvalidMeta)
        else if AllReported(meta, p.state.value) then Accept
        else Reject(FailedChallenge)
  }

  /** checkInstrumentation; a nil meta is None. */
  function CheckInstrumentation(meta: Option<InstrumentationMeta>, now: int, result: Option<Json>, blocked: bool,
                                timeout: bool): Verdict {
    match meta
    case None => Reject(InstrCorrupted)
    case Some(m) =>
      if m.expires != 0 && now > m.expires then Reject(InstrExpired)
      else if blocked then (if m.blockAutomatedBrowsers then Reject(InstrAutomated) else Accept)
      else if timeout then Reject(InstrTimeout)
      else
        match result
        case None => Reject(InstrMissing)
        case Some(r) => if r == Null || r == Bool(false) then Reject(InstrMissing) else ResultVerdict(m, r)
  }

  /**
   * A submission passes exactly when the meta has not expired and either the client reports "blocked" where
   * blocking is off, or, reporting neither flag, it answers the right id with every expected value.
   */
  lemma InstrumentationPassesIff(m: InstrumentationMeta, now: int, result: Option<Json>, blocked: bool, timeout: bool)
    ensures CheckInstrumentation(Some(m), now, result, blocked, timeout) == Accept <==>
      && (m.expires == 0 || now <= m.expires)
      && (if blocked then !m.blockAutomatedBrowsers
          else
            && !timeout && result.Some? && result.value.Obj?
            && m.id != "" && m.vars != []
            && var p := ParsePayload(result.value.fields);
               p.Some? && p.value.i == m.id && p.value.state.Some? && AllReported(m, p.value.state.value))
  {
  }

  // ----- format 2 -----

  datatype Expected =
    | ExpectPow(salt: string, target: string)
    | ExpectRsw(y: string)
    | ExpectInstrumentation(meta: Option<InstrumentationMeta>)
    | ExpectOther

  datatype Solution = Solution(nonce: Option<Json>, y: string, instr: Option<Json>, blocked: bool, timeout: bool)

  function StringField(fields: map<string, Json>, name: string): Option<string> {
    match Field(fields, name)
    case None => Some("")
    case Some(Null) => Some("")
    case Some(Str(s)) => Some(s)
    case _ => None
  }

  function BoolField(fields: map<string, Json>, name: string): Option<bool> {
    match Field(fields, name)
    case None => Some(false)
    case Some(Null) => Some(false)
    case Some(Bool(b)) => Some(b)
    case _ => None
  }

  /** json.Unmarshal of one entry into Solution; anything but an object is refused before. */
  function ParseSolution(j: Json): Option<Solution> {
    if !j.Obj? then None
    else
      var y := StringField(j.fields, "y");
      var blocked, timeout := BoolField(j.fields, "blocked"), BoolField(j.fields, "timeout");
      if y.None? || blocked.None? || timeout.None? then None
      else Some(Solution(Field(j.fields, "nonce"), y.value, Field(j.fields, "instr"), blocked.value, timeout.value))
  }

  /** One position: its own protocol's test. */
  function EntryVerdict(s: Suite, e: Expected, j: Json, now: int): Verdict {
    match ParseSolution(j)
    case None => Reject(InvalidSolution)
    case Some(sol) =>
      match e
      case ExpectPow(salt, target) =>
        var nonce := NonceText(sol.nonce);
        if nonce.Some? && PowMatches(s, salt, nonce.value, target) then Accept else Reject(InvalidSolution)
      case ExpectRsw(y) => if AcceptsHex(y, sol.y) then Accept else Reject(InvalidSolution)
      case ExpectInstrumentation(meta) => CheckInstrumentation(meta, now, sol.instr, sol.blocked, sol.timeout)
      case ExpectOther => Reject(InvalidSolution)
  }

  /** json.Unmarshal into a slice; null gives the empty one. */
  function ItemsOf(posted: Json): Option<seq<Json>> {
    match posted
    case Arr(items) => Some(items)
    case Null => Some([])
    case _ => None
  }

  predicate AcceptsUpTo(s: Suite, expected: seq<Expected>, items: seq<Json>, now: int, n: nat)
    requires n <= |expected| && n <= |items|
  {
    forall i :: 0 <= i < n ==> EntryVerdict(s, expected[i], items[i], now) == Accept
  }

  /** Position k is the first that fails, with this verdict. */
  predicate FailsFirstAt(s: Suite, expected: seq<Expected>, items: seq<Json>, now: int, k: nat, v: Verdict)
    requires k < |expected| && k < |items|
  {
    AcceptsUpTo(s, expected, items, now, k) && v == EntryVerdict(s, expected[k], items[k], now) && v != Accept
  }

  /** The verdict of the first position that does not pass. */
  function FirstVerdict(s: Suite, expected: seq<Expected>, items: seq<Json>, now: int): Verdict
    requires |expected| == |items|
  {
    if expected == [] then Accept
    else
      var v := EntryVerdict(s, expected[0], items[0], now);
      if v == Accept then FirstVerdict(s, expected[1..], items[1..], now) else v
  }

  /** verifyV2's answer on the opened envelope. */
  function EntriesVerdict(s: Suite, expected: seq<Expected>, posted: Json, now: int): Verdict {
    match ItemsOf(posted)
    case None => Reject(MissingSolutions)
    case Some(items) =>
      if |items| != |expected| then Reject(InvalidSolutions) else FirstVerdict(s, expected, items, now)
  }

  /** Accepted means every position passes; a rejection is that of the first position that does not. */
  lemma {:induction false} FirstVerdictMeaning(s: Suite, expected: seq<Expected>, items: seq<Json>, now: int)
    requires |expected| == |items|
    ensures var v := FirstVerdict(s, expected, items, now);
      && (v == Accept <==> AcceptsUpTo(s, expected, items, now, |expected|))
      && (v != Accept <==> exists k :: 0 <= k < |expected| && FailsFirstAt(s, expected, items, now, k, v))
  {
    if expected != [] {
      var v := FirstVerdict(s, expected, items, now);
      var rest, others := expected[1..], items[1..];
      FirstVerdictMeaning(s, rest, others, now);
      if EntryVerdict(s, expected[0], items[0], now) != Accept {
        assert FailsFirstAt(s, expected, items, now, 0, v);
      } else {
        assert forall i :: 0 <= i < |rest| ==> rest[i] == expected[i + 1] && others[i] == items[i + 1];
        if v != Accept {
          var k :| 0 <= k < |rest| && FailsFirstAt(s, rest, others, now, k, v);
          FirstFailureShifts(s, expected, items, now, k, v);
        } else {
          AcceptsFromFirst(s, expected, items, now);
        }
      }
    }
  }

  lemma FirstFailureShifts(s: Suite, expected: seq<Expected>, items: seq<Json>, now: int, k: nat, v: Verdict)
    requires |expected| == |items| && k + 1 < |expected| && EntryVerdict(s, expected[0], items[0], now) == Accept
    requires FailsFirstAt(s, expected[1..], items[1..], now, k, v)
    ensures FailsFirstAt(s, expected, items, now, k + 1, v)
  {
    forall i | 0 <= i < k + 1
      ensures EntryVerdict(s, expected[i], items[i], now) == Accept
    {
      assert i > 0 ==> EntryVerdict(s, expected[1..][i - 1], items[1..][i - 1], now) == Accept;
    }
  }

  lemma AcceptsFromFirst(s: Suite, expected: seq<Expected>, items: seq<Json>, now: int)
    requires |expected| == |items| > 0 && EntryVerdict(s, expected[0], items[0], now) == Accept
    requires AcceptsUpTo(s, expected[1..], items[1..], now, |expected| - 1)
    ensures AcceptsUpTo(s, expected, items, now, |expected|)
  {
    forall i | 0 <= i < |expected|
      ensures EntryVerdict(s, expected[i], items[i], now) == Accept
    {
      assert i > 0 ==> EntryVerdict(s, expected[1..][i - 1], items[1..][i - 1], now) == Accept;
    }
  }

  /** verifyV2 on the opened envelope: every position by its own protocol, the first rejection wins. */
  method VerifyEntries(s: Suite, expected: seq<Expected>, posted: Json, now: int) returns (v: Verdict)
    ensures v == EntriesVerdict(s, expected, posted, now)
  {
    var parsed := ItemsOf(posted);
    if parsed.None? {
      return Reject(MissingSolutions);
    }
    var items := parsed.value;
    if |items| != |expected| {
      return Reject(InvalidSolutions);
    }
    for i := 0 to |expected|
      invariant FirstVerdict(s, expected, items, now) == FirstVerdict(s, expected[i..], items[i..], now)
    {
      assert expected[i..][0] == expected[i] && expected[i..][1..] == expected[i + 1..];
      assert items[i..][0] == items[i] && items[i..][1..] == items[i + 1..];
      var verdict := EntryVerdict(s, expected[i], items[i], now);
      if verdict != Accept {
        return verdict;
      }
    }
    return Accept;
  }
}
