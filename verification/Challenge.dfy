/** Building a format-2 challenge: puzzles for the client, expected answers for the server (cap.go). */
module Challenge {
  import opened Arith
  import opened Base64
  import opened Checks
  import opened Instrumentation
  import opened Numerals
  import opened RswWire
  import Rsw
  import Store

  datatype ProtocolName = Sha256Pow | RswPuzzle | Probe | Unknown(name: string)

  /** What the script does in an honest browser: run a generated program, or report a known state. */
  datatype Blob = NoBlob | Program(d: Draws) | Custom(id: string, report: map<string, int>)

  datatype Generated = Generated(blob: Blob, meta: Store.InstrumentationMeta)

  datatype Entry =
    | PowEntry(salt: string, target: string)
    | RswEntry(n: string, x: string, t: nat)
    | ProbeEntry(blob: Blob)

  /** Effective settings of one challenge. */
  datatype Config = Config(
    protocols: seq<ProtocolName>, count: int, size: int, difficulty: int,
    minter: Option<Rsw.Minter>, modulusBytes: nat, probe: bool, probeTtl: nat, block: bool)

  /** GenerateInstrumentation with the draws of its successive calls, or a caller's own generator. */
  datatype Generator =
    | BuiltInGenerator(draws: nat -> GoodDraws)
    | CustomGenerator(results: nat -> Option<Generated>)

  /** Bytes of the random source, and the generator. */
  datatype Tape = Tape(bytes: nat -> byte, generator: Generator)

  datatype Result<+T> = Ok(value: T) | ConfigError

  predicate ValidPowParams(count: int, size: int, difficulty: int) {
    1 <= count <= 1000 && 1 <= size <= 256 && 1 <= difficulty <= 16
  }

  // ----- random draws -----

  /** (The measure names pos only to keep the verifier from unrolling all steps.) */
  function Draw(tape: Tape, pos: nat, n: nat): (b: Bytes)
    ensures |b| == n
    decreases n, pos - pos
  {
    if n == 0 then [] else Draw(tape, pos, n - 1) + [tape.bytes(pos + n - 1)]
  }

  function RandomHex(tape: Tape, pos: nat, n: nat): (h: string)
    ensures |h| == 2 * n
  {
    HexOf(Draw(tape, pos, n))
  }

  lemma {:induction false} DrawIsTape(tape: Tape, pos: nat, n: nat, k: nat)
    requires k < n
    ensures Draw(tape, pos, n)[k] == tape.bytes(pos + k)
  {
    if k < n - 1 {
      DrawIsTape(tape, pos, n - 1, k);
    }
  }

  predicate RepeatsAt(tape: Tape, p: nat, q: nat, k: nat) {
    tape.bytes(p + k) == tape.bytes(q + k)
  }

  /** Two draws are equal exactly when the tape repeats itself byte for byte. */
  lemma {:induction false} SameDrawIff(tape: Tape, p: nat, q: nat, n: nat)
    ensures Draw(tape, p, n) == Draw(tape, q, n) <==> forall k :: 0 <= k < n ==> RepeatsAt(tape, p, q, k)
  {
    var a, b := Draw(tape, p, n), Draw(tape, q, n);
    forall k | 0 <= k < n
      ensures RepeatsAt(tape, p, q, k) <==> a[k] == b[k]
    {
      DrawIsTape(tape, p, n, k);
      DrawIsTape(tape, q, n, k);
    }
  }

  /** The drawn scalar is the number whose big-endian bytes were drawn. */
  lemma {:induction false} NatOfBytes(b: Bytes)
    ensures BigEndian(NatOf(b), |b|) == b
  {
    if b != [] {
      var front, last := b[..|b| - 1], b[|b| - 1];
      NatOfBytes(front);
      DivModUnique(NatOf(b), NatOf(front), 256, last);
      assert b == front + [last];
    }
  }

  // ----- the instrumentation generator's result -----

  predicate NamesOk(names: seq<string>) {
    Distinct(names) && forall i :: 0 <= i < |names| ==> names[i] != ""
  }

  /** What runInstrumentationGenerator lets through. */
  predicate Publishable(g: Generated, block: bool) {
    && g.blob != NoBlob && g.meta.id != "" && |g.meta.vars| > 0 && |g.meta.vars| == |g.meta.expectedVals|
    && NamesOk(g.meta.vars)
    && g.meta.blockAutomatedBrowsers == block
  }

  function Published(g: Generated, ttlEnd: int): Generated {
    if g.meta.expires == 0 then Generated(g.blob, g.meta.(expires := ttlEnd)) else g
  }

  /** runInstrumentationGenerator on a generator's result; ttlEnd is the expiry it falls back to. */
  method RunGenerator(g: Option<Generated>, block: bool, ttlEnd: int) returns (r: Result<Generated>)
    ensures r.Ok? <==> g.Some? && Publishable(g.value, block)
    ensures r.Ok? ==> r.value == Published(g.value, ttlEnd)
  {
    if g.None? || g.value.blob == NoBlob || g.value.meta.id == "" || |g.value.meta.vars| == 0
       || |g.value.meta.vars| != |g.value.meta.expectedVals| {
      return ConfigError;
    }
    var meta := g.value.meta;
    var seen: set<string> := {};
    for i := 0 to |meta.vars|
      invariant seen == set k | 0 <= k < i :: meta.vars[k]
      invariant NamesOk(meta.vars[..i])
    {
      var name := meta.vars[i];
      if name == "" || name in seen {
        assert !NamesOk(meta.vars);
        return ConfigError;
      }
      seen := seen + {name};
    }
    assert meta.vars[..|meta.vars|] == meta.vars;
    if meta.blockAutomatedBrowsers != block {
      return ConfigError;
    }
    meta := meta.(expires := if meta.expires == 0 then ttlEnd else meta.expires);
    r := Ok(Generated(g.value.blob, meta));
  }

  /** GenerateInstrumentation's result for its draws. */
  function BuiltIn(d: Draws, block: bool, expires: int): Generated
    requires ValidDraws(d)
  {
    Generated(Program(d), Store.InstrumentationMeta(d.id, Shadow(d), d.vars, block, expires))
  }

  /** The result of the generator's call number k. */
  function Generate(g: Generator, k: nat, block: bool, expires: int): Option<Generated> {
    match g
    case BuiltInGenerator(draws) => Some(BuiltIn(draws(k), block, expires))
    case CustomGenerator(results) => results(k)
  }

  // ----- the challenge -----

  /** Instrumentation is appended when it is configured and not already listed. */
  function Effective(c: Config): seq<ProtocolName> {
    if c.probe && Probe !in c.protocols then c.protocols + [Probe] else c.protocols
  }

  /** The protocol of every entry, in order. */
  function Layout(protocols: seq<ProtocolName>, count: nat): seq<ProtocolName> {
    if protocols == [] then []
    else
      Layout(protocols[..|protocols| - 1], count) + Filled(protocols[|protocols| - 1], count)
  }

  // ----- which random draws belong to which entry -----

  /** Random bytes and generator calls used so far. */
  datatype Cursor = Cursor(pos: nat, calls: nat)

  function SaltBytes(c: Config): nat {
    if c.size < 0 then 0 else c.size
  }

  function After(c: Config, p: ProtocolName, at: Cursor): Cursor {
    match p
    case Sha256Pow => at.(pos := at.pos + SaltBytes(c))
    case RswPuzzle => at.(pos := at.pos + 32)
    case Probe => at.(calls := at.calls + 1)
    case Unknown(_) => at
  }

  function CursorAt(c: Config, layout: seq<ProtocolName>): Cursor {
    if layout == [] then Cursor(0, 0)
    else After(c, layout[|layout| - 1], CursorAt(c, layout[..|layout| - 1]))
  }

  /** How many random bytes and generator calls one entry takes. */
  function BytesFor(c: Config, p: ProtocolName): nat {
    match p
    case Sha256Pow => SaltBytes(c)
    case RswPuzzle => 32
    case _ => 0
  }

  function CallsFor(p: ProtocolName): nat {
    if p == Probe then 1 else 0
  }

  /** The entries use up the draws one after another. */
  lemma {:induction false} CursorsAdvance(c: Config, layout: seq<ProtocolName>, i: nat, j: nat)
    requires i < j <= |layout|
    ensures var a, b := CursorAt(c, layout[..i]), CursorAt(c, layout[..j]);
      a.pos + BytesFor(c, layout[i]) <= b.pos && a.calls + CallsFor(layout[i]) <= b.calls
    decreases j
  {
    var before := layout[..j];
    assert before[..j - 1] == layout[..j - 1] && before[j - 1] == layout[j - 1];
    if i < j - 1 {
      CursorsAdvance(c, layout, i, j - 1);
    }
  }

  /** No byte of the random source and no generator call serves two entries. */
  lemma DrawsAreDisjoint(c: Config, layout: seq<ProtocolName>, i: nat, j: nat, k: nat, l: nat)
    requires i < |layout| && j < |layout| && i != j
    ensures var a, b := CursorAt(c, layout[..i]), CursorAt(c, layout[..j]);
      && (k < BytesFor(c, layout[i]) && l < BytesFor(c, layout[j]) ==> a.pos + k != b.pos + l)
      && (layout[i] == Probe == layout[j] ==> a.calls != b.calls)
  {
    if i < j {
      CursorsAdvance(c, layout, i, j);
    } else {
      CursorsAdvance(c, layout, j, i);
    }
  }

  /** One puzzle and the answer kept for it, from the draws that start at the cursor. */
  ghost predicate PairedAt(c: Config, tape: Tape, p: ProtocolName, at: Cursor, e: Entry, x: Expected, expires: int) {
    match p
    case Sha256Pow =>
      && c.difficulty >= 0
      && e == PowEntry(RandomHex(tape, at.pos, BytesFor(c, p)), Zeros(c.difficulty))
      && x == ExpectPow(e.salt, e.target)
    case RswPuzzle =>
      && c.minter.Some? && Rsw.ValidMinter(c.minter.value)
      && MintedPair(c.minter.value, c.modulusBytes, NatOf(Draw(tape, at.pos, BytesFor(c, p))), e, x)
    case Probe => ProbePair(c, Generate(tape.generator, at.calls, c.block, expires), e, x, expires)
    case Unknown(_) => false
  }

  ghost predicate MintedPair(m: Rsw.Minter, bytes: nat, r: nat, e: Entry, x: Expected)
    requires Rsw.ValidMinter(m)
  {
    var d := Rsw.Mint(m, r);
    && d.n >= 0 && d.x >= 0 && d.expectedY >= 0
    && e == RswEntry(PaddedHex(d.n, bytes), PaddedHex(d.x, bytes), d.iterations)
    && x == ExpectRsw(PaddedHex(d.expectedY, bytes))
  }

  /** The blob goes out and the meta of the same generator call stays, with the challenge's expiry. */
  predicate ProbePair(c: Config, g: Option<Generated>, e: Entry, x: Expected, expires: int) {
    && g.Some? && Publishable(g.value, c.block)
    && e == ProbeEntry(g.value.blob)
    && x == ExpectInstrumentation(Some(g.value.meta.(expires := expires)))
  }

  /** Position i of the three lists. */
  ghost predicate PairedIn(c: Config, tape: Tape, layout: seq<ProtocolName>, es: seq<Entry>, xs: seq<Expected>,
                           expires: int, i: nat)
    requires i < |layout| && i < |es| && i < |xs|
  {
    PairedAt(c, tape, layout[i], CursorAt(c, layout[..i]), es[i], xs[i], expires)
  }

  ghost predicate AllPaired(c: Config, tape: Tape, layout: seq<ProtocolName>, es: seq<Entry>, xs: seq<Expected>,
                            expires: int) {
    && |layout| == |es| == |xs|
    && forall i :: 0 <= i < |es| ==> PairedIn(c, tape, layout, es, xs, expires, i)
  }

  lemma {:induction false} CursorSnoc(c: Config, layout: seq<ProtocolName>, p: ProtocolName)
    ensures CursorAt(c, layout + [p]) == After(c, p, CursorAt(c, layout))
  {
    assert (layout + [p])[..|layout|] == layout;
  }

  lemma {:induction false} PairedSnoc(c: Config, tape: Tape, layout: seq<ProtocolName>, es: seq<Entry>,
                                      xs: seq<Expected>,
                                      expires: int,
                   p: ProtocolName, e: Entry, x: Expected)
    requires AllPaired(c, tape, layout, es, xs, expires) && PairedAt(c, tape, p, CursorAt(c, layout), e, x, expires)
    ensures AllPaired(c, tape, layout + [p], es + [e], xs + [x], expires)
  {
    forall i | 0 <= i < |es| + 1
      ensures PairedIn(c, tape, layout + [p], es + [e], xs + [x], expires, i)
    {
      assert (layout + [p])[..i] == layout[..i];
      if i < |es| {
        assert PairedIn(c, tape, layout, es, xs, expires, i);
      } else {
        assert layout[..i] == layout;
      }
    }
  }

  /** What is built so far: the entries of this layout, and the draws after them. */
  ghost predicate Building(c: Config, tape: Tape, layout: seq<ProtocolName>, expires: int, b: Built) {
    AllPaired(c, tape, layout, b.entries, b.expected, expires) && b.at == CursorAt(c, layout)
  }

  /** entries and expected, and how far the draws have come. */
  datatype Built = Built(entries: seq<Entry>, expected: seq<Expected>, at: Cursor)

  function Append(c: Config, b: Built, p: ProtocolName, e: Entry, x: Expected): Built {
    Built(b.entries + [e], b.expected + [x], After(c, p, b.at))
  }

  lemma AppendBuilds(c: Config, tape: Tape, layout: seq<ProtocolName>, expires: int, b: Built, p: ProtocolName,
                     e: Entry,
                     x: Expected)
    requires Building(c, tape, layout, expires, b) && PairedAt(c, tape, p, b.at, e, x, expires)
    ensures Building(c, tape, layout + [p], expires, Append(c, b, p, e, x))
  {
    PairedSnoc(c, tape, layout, b.entries, b.expected, expires, p, e, x);
    CursorSnoc(c, layout, p);
  }

  /** The count entries of one sha256-pow item. */
  method AddPowEntries(c: Config, tape: Tape, b0: Built, expires: int,
                       ghost layout0: seq<ProtocolName>) returns (b: Built)
    requires ValidPowParams(c.count, c.size, c.difficulty) && Building(c, tape, layout0, expires, b0)
    ensures Building(c, tape, layout0 + seq(c.count, _ => Sha256Pow), expires, b)
  {
    b := b0;
    var target := Zeros(c.difficulty);
    ghost var layout := layout0;
    for i := 0 to c.count
      invariant layout == layout0 + seq(i, _ => Sha256Pow)
      invariant Building(c, tape, layout, expires, b)
    {
      var salt := RandomHex(tape, b.at.pos, c.size);
      AppendBuilds(c, tape, layout, expires, b, Sha256Pow, PowEntry(salt, target), ExpectPow(salt, target));
      b := Append(c, b, Sha256Pow, PowEntry(salt, target), ExpectPow(salt, target));
      layout := layout + [Sha256Pow];
    }
  }

  method AddRswEntry(c: Config, tape: Tape, b0: Built, expires: int,
                     ghost layout0: seq<ProtocolName>) returns (b: Built)
    requires c.minter.Some? && Rsw.ValidMinter(c.minter.value) && Building(c, tape, layout0, expires, b0)
    ensures Building(c, tape, layout0 + [RswPuzzle], expires, b)
  {
    var m := c.minter.value;
    var r := NatOf(Draw(tape, b0.at.pos, 32));
    Rsw.MintedResidues(m, r);
    var d := Rsw.Mint(m, r);
    var e := RswEntry(PaddedHex(d.n, c.modulusBytes), PaddedHex(d.x, c.modulusBytes), d.iterations);
    var x := ExpectRsw(PaddedHex(d.expectedY, c.modulusBytes));
    AppendBuilds(c, tape, layout0, expires, b0, RswPuzzle, e, x);
    b := Append(c, b0, RswPuzzle, e, x);
  }

  method AddProbeEntry(c: Config, tape: Tape, g: Generated, b0: Built, expires: int, ghost layout0: seq<ProtocolName>)
    returns (b: Built)
    requires Building(c, tape, layout0, expires, b0) && Publishable(g, c.block)
    requires var made := Generate(tape.generator, b0.at.calls, c.block, expires);
      made.Some? && g.blob == made.value.blob && g.meta == made.value.meta.(expires := g.meta.expires)
    ensures Building(c, tape, layout0 + [Probe], expires, b)
  {
    var e, x := ProbeEntry(g.blob), ExpectInstrumentation(Some(g.meta.(expires := expires)));
    AppendBuilds(c, tape, layout0, expires, b0, Probe, e, x);
    b := Append(c, b0, Probe, e, x);
  }

  /** The settings the protocol needs are there. */
  predicate Configured(c: Config, p: ProtocolName) {
    match p
    case Sha256Pow => ValidPowParams(c.count, c.size, c.difficulty)
    case RswPuzzle => c.minter.Some?
    case Probe => true
    case Unknown(_) => false
  }

  predicate ConfiguredAll(c: Config, protocols: seq<ProtocolName>) {
    forall i :: 0 <= i < |protocols| ==> Configured(c, protocols[i])
  }

  predicate AllConfigured(c: Config) {
    ConfiguredAll(c, Effective(c))
  }

  lemma ConfiguredSnoc(c: Config, protocols: seq<ProtocolName>, i: nat)
    requires i < |protocols|
    ensures ConfiguredAll(c, protocols[..i + 1]) <==> ConfiguredAll(c, protocols[..i]) && Configured(c, protocols[i])
    ensures ConfiguredAll(c, protocols) ==> Configured(c, protocols[i])
  {
    var front, more := protocols[..i], protocols[..i + 1];
    assert more[i] == protocols[i] && forall k :: 0 <= k < i ==> more[k] == front[k];
  }

  /** The generator's results can be published; the built-in one's can if its variables differ. */
  ghost predicate GeneratorWorks(c: Config, g: Generator) {
    match g
    case BuiltInGenerator(draws) => forall k: nat :: Distinct(draws(k).vars)
    case CustomGenerator(results) => forall k: nat :: results(k).Some? && Publishable(results(k).value, c.block)
  }

  lemma WorkingGenerator(c: Config, g: Generator, k: nat, expires: int)
    requires GeneratorWorks(c, g)
    ensures var made := Generate(g, k, c.block, expires); made.Some? && Publishable(made.value, c.block)
  {
    if g.BuiltInGenerator? {
      assert Distinct(g.draws(k).vars);
    }
  }

  function EntryCount(c: Config): nat {
    if c.count < 0 then 0 else c.count
  }

  /** The entries of one protocol: how much of the layout it fills. */
  function Filled(p: ProtocolName, count: nat): seq<ProtocolName> {
    if p == Sha256Pow then seq(count, _ => Sha256Pow) else [p]
  }

  /** One case of challengeV2's switch. */
  method AddEntries(c: Config, tape: Tape, p: ProtocolName, b0: Built, expires: int, ghost layout0: seq<ProtocolName>)
    returns (ok: bool, b: Built)
    requires c.minter.Some? ==> Rsw.ValidMinter(c.minter.value)
    requires Building(c, tape, layout0, expires, b0)
    ensures ok ==> Configured(c, p) && Building(c, tape, layout0 + Filled(p, EntryCount(c)), expires, b)
    ensures Configured(c, p) && GeneratorWorks(c, tape.generator) ==> ok
  {
    ok, b := false, b0;
    match p {
      case Sha256Pow =>
        if ValidPowParams(c.count, c.size, c.difficulty) {
          b := AddPowEntries(c, tape, b, expires, layout0);
          ok := true;
        }
      case RswPuzzle =>
        if c.minter.Some? {
          b := AddRswEntry(c, tape, b, expires, layout0);
          ok := true;
        }
      case Probe =>
        ghost var works := GeneratorWorks(c, tape.generator);
        if works {
          WorkingGenerator(c, tape.generator, b.at.calls, expires);
        }
        var g := RunGenerator(Generate(tape.generator, b.at.calls, c.block, expires), c.block, expires);
        if g.Ok? {
          b := AddProbeEntry(c, tape, g.value, b, expires, layout0);
          ok := true;
        }
      case Unknown(_) =>
    }
  }

  /** Entries and expected answers are those the settings and the draws determine. */
  ghost predicate BuiltFrom(c: Config, tape: Tape, es: seq<Entry>, xs: seq<Expected>, expires: int) {
    AllPaired(c, tape, Layout(Effective(c), EntryCount(c)), es, xs, expires)
  }

  /** The loop over the protocol list. */
  method BuildAll(c: Config, tape: Tape, protocols: seq<ProtocolName>, expires: int) returns (ok: bool, b: Built)
    requires c.minter.Some? ==> Rsw.ValidMinter(c.minter.value)
    ensures ok ==> ConfiguredAll(c, protocols) && Building(c, tape, Layout(protocols, EntryCount(c)), expires, b)
    ensures GeneratorWorks(c, tape.generator) && ConfiguredAll(c, protocols) ==> ok
  {
    b := Built([], [], Cursor(0, 0));
    for i := 0 to |protocols|
      invariant Building(c, tape, Layout(protocols[..i], EntryCount(c)), expires, b)
      invariant ConfiguredAll(c, protocols[..i])
    {
      LayoutSnoc(protocols, i, EntryCount(c));
      ConfiguredSnoc(c, protocols, i);
      ok, b := AddEntries(c, tape, protocols[i], b, expires, Layout(protocols[..i], EntryCount(c)));
      if !ok {
        return;
      }
    }
    ok := true;
    assert protocols[..|protocols|] == protocols;
  }

  /**
   * The loops of challengeV2: puzzles and expected answers stay index-aligned, each pair from its own draws
   * and position for position with the layout the protocol list asks for; only missing settings or a failing
   * generator stop them.
   */
  method BuildEntries(c: Config, tape: Tape, expires: int) returns (ok: bool, b: Built)
    requires c.minter.Some? ==> Rsw.ValidMinter(c.minter.value)
    ensures ok ==>
              && AllConfigured(c) && b.entries != []
              && BuiltFrom(c, tape, b.entries, b.expected, expires)
    ensures AllConfigured(c) && GeneratorWorks(c, tape.generator) && Effective(c) != [] ==> ok
  {
    ok, b := BuildAll(c, tape, Effective(c), expires);
    if ok {
      SomethingIsBuilt(c, tape, expires, b);
      ok := |b.entries| > 0;
    }
  }

  lemma {:induction false} LayoutSnoc(protocols: seq<ProtocolName>, i: nat, count: nat)
    requires i < |protocols|
    ensures Layout(protocols[..i + 1], count)
         == Layout(protocols[..i], count) + Filled(protocols[i], count)
  {
    assert protocols[..i + 1][..i] == protocols[..i];
  }

  lemma LayoutNonempty(c: Config)
    requires AllConfigured(c)
    ensures |Layout(Effective(c), EntryCount(c))| == 0 <==> Effective(c) == []
  {
    var protocols := Effective(c);
    if protocols != [] {
      var last := protocols[|protocols| - 1];
      assert Configured(c, last);
      assert |Filled(last, EntryCount(c))| > 0;
    }
  }

  lemma SomethingIsBuilt(c: Config, tape: Tape, expires: int, b: Built)
    requires AllConfigured(c) && Building(c, tape, Layout(Effective(c), EntryCount(c)), expires, b)
    ensures |b.entries| == 0 <==> Effective(c) == []
  {
    LayoutNonempty(c);
  }
}
