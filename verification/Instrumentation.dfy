/**
 * The instrumentation generator (instrumentation.go): it emits a random JavaScript program and, in
 * the same loop, evaluates it in Go's int32 arithmetic to know the answer in advance.
 */
module Instrumentation {
  import opened DomHeap
  import opened DomSum
  import opened Int32
  import opened JsNumber
  import opened JsProgram
  import opened Numerals

  /** One round of draws: operator and operand indices. */
  datatype RoundDraw = RoundDraw(op: nat, dest: nat, src1: nat, src2: nat, src3: nat)

  predicate ValidRound(r: RoundDraw) {
    r.op <= 5 && r.dest <= 3 && r.src1 <= 3 && r.src2 <= 3 && r.src3 <= 3
  }

  /** Everything drawn for one program. */
  datatype Draws = Draws(
    id: string, vars: seq<string>, initVals: seq<int>, correctKey: int, badKey: int,
    rounds: seq<RoundDraw>, salts: seq<int>)

  predicate ValidDraws(d: Draws) {
    && d.id != ""
    && |d.vars| == |d.initVals| == |d.salts| == 4
    && (forall i :: 0 <= i < 4 ==> d.vars[i] != "" && 10 <= d.initVals[i] <= 250)
    && 1000 <= d.correctKey <= 9000 && 1000 <= d.badKey <= 9000 && d.badKey != d.correctKey
    && |d.rounds| == 20 && (forall i :: 0 <= i < 20 ==> ValidRound(d.rounds[i]))
    && (forall i :: 0 <= i < 4 ==> 100_000 <= d.salts[i] <= 999_999)
  }

  const SAMPLE_DRAWS := Draws(
    "id", ["a", "b", "c", "d"], [10, 10, 10, 10], 1000, 1001,
    seq(20, _ => RoundDraw(0, 0, 0, 0, 0)), [100_000, 100_000, 100_000, 100_000])

  /** What the generator can draw. */
  type GoodDraws = d: Draws | ValidDraws(d) witness SAMPLE_DRAWS

  predicate Distinct(names: seq<string>) {
    forall i, j :: 0 <= i < j < |names| ==> names[i] != names[j]
  }

  // ----- the emitted program -----

  function EmitKey(v: string, correctKey: int, badKey: int): Stmt {
    Assign(v, Bits(Xor, Variable(v), ByUserAgent(Literal(correctKey), Literal(badKey))))
  }

  function EmitRound(r: RoundDraw, vars: seq<string>): Stmt
    requires ValidRound(r) && |vars| == 4
  {
    var vD, v1, v2, v3 :=
      Variable(vars[r.dest]), Variable(vars[r.src1]), Variable(vars[r.src2]), Variable(vars[r.src3]);
    var e := match r.op
      case 0 => Not(Bits(And, vD, v1))
      case 1 => Bits(Xor, vD, v1)
      case 2 => Bits(Or, vD, v1)
      case 3 => Bits(And, vD, v1)
      case 4 => CallPrototypeHelper(v1, v2, vD)
      case _ => CallDomHelper(v1, v2, v3);
    Assign(vars[r.dest], e)
  }

  function EmitMask(v: string, salt: int): Stmt {
    Assign(v, Plus(Remainder(Bits(And, Bits(Xor, Variable(v), Literal(salt)), Literal(0x7FFF_FFFF)), 900_000),
                   Literal(100_000)))
  }

  function EmitRounds(rounds: seq<RoundDraw>, vars: seq<string>): (p: seq<Stmt>)
    requires |vars| == 4 && forall i :: 0 <= i < |rounds| ==> ValidRound(rounds[i])
  {
    seq(|rounds|, i requires 0 <= i < |rounds| => EmitRound(rounds[i], vars))
  }

  function EmitMasks(vars: seq<string>, salts: seq<int>): (p: seq<Stmt>)
    requires |vars| == |salts|
  {
    seq(|vars|, i requires 0 <= i < |vars| => EmitMask(vars[i], salts[i]))
  }

  function Emit(d: Draws): seq<Stmt>
    requires ValidDraws(d)
  {
    [EmitKey(d.vars[0], d.correctKey, d.badKey)] + EmitRounds(d.rounds, d.vars) + EmitMasks(d.vars, d.salts)
  }

  /** `var a=10;var b=...` */
  function InitEnv(vars: seq<string>, initVals: seq<int>): (env: Env)
    requires |vars| <= |initVals|
  {
    if vars == [] then map[]
    else InitEnv(vars[..|vars| - 1], initVals)[vars[|vars| - 1] := Fin(initVals[|vars| - 1])]
  }

  // ----- the shadow evaluation -----

  predicate Int32s(vals: seq<int>) {
    forall i :: 0 <= i < |vals| ==> -TWO31 <= vals[i] < TWO31
  }

  function ShadowRound(r: RoundDraw, vals: seq<int>): (v: int)
    requires ValidRound(r) && |vals| == 4 && Int32s(vals)
  {
    var vD, v1, v2, v3 := vals[r.dest], vals[r.src1], vals[r.src2], vals[r.src3];
    match r.op
    case 0 => Complement(Int32Op(And, vD, v1))
    case 1 => Int32Op(Xor, vD, v1)
    case 2 => Int32Op(Or, vD, v1)
    case 3 => Int32Op(And, vD, v1)
    case 4 => Int32Op(Or, Int32Op(Xor, v2, v1), Int32Op(Xor, vD, v2))
    case _ => DomValue(v1, v2, v3)
  }

  function ShadowMask(v: int, salt: int): int {
    TruncRem(Int32Op(And, Int32Op(Xor, v, salt), 0x7FFF_FFFF), 900_000) + 100_000
  }

  lemma DomValueRange(x: int, y: int, z: int)
    ensures -256 < DomValue(x, y, z) < 256
  {
  }

  function ShadowRounds(rounds: seq<RoundDraw>, vals: seq<int>): (r: seq<int>)
    requires |vals| == 4 && Int32s(vals) && forall i :: 0 <= i < |rounds| ==> ValidRound(rounds[i])
    ensures |r| == 4 && Int32s(r)
  {
    if rounds == [] then vals
    else
      var r := rounds[0];
      var v := ShadowRound(r, vals);
      DomValueRange(vals[r.src1], vals[r.src2], vals[r.src3]);
      ShadowRounds(rounds[1..], vals[r.dest := v])
  }

  function ShadowMasks(vals: seq<int>, salts: seq<int>): (r: seq<int>)
    requires |vals| <= |salts|
    ensures |r| == |vals|
  {
    seq(|vals|, i requires 0 <= i < |vals| => ShadowMask(vals[i], salts[i]))
  }

  function Shadow(d: Draws): (r: seq<int>)
    requires ValidDraws(d)
    ensures |r| == 4
  {
    ShadowMasks(ShadowRounds(d.rounds, d.initVals[0 := Int32Op(Xor, d.initVals[0], d.correctKey)]), d.salts)
  }

  // ----- the generator's loops -----

  method ShadowStep(r: RoundDraw, vals: array<int>)
    requires ValidRound(r) && vals.Length == 4 && Int32s(vals[..])
    modifies vals
    ensures vals[..] == old(vals[..])[r.dest := ShadowRound(r, old(vals[..]))] && Int32s(vals[..])
  {
    var d, a, b, c := vals[r.dest], vals[r.src1], vals[r.src2], vals[r.src3];
    match r.op
    case 0 => vals[r.dest] := Complement(Int32Op(And, d, a));
    case 1 => vals[r.dest] := Int32Op(Xor, d, a);
    case 2 => vals[r.dest] := Int32Op(Or, d, a);
    case 3 => vals[r.dest] := Int32Op(And, d, a);
    case 4 => vals[r.dest] := Int32Op(Or, Int32Op(Xor, b, a), Int32Op(Xor, d, b));
    case _ =>
      var s := DomSumMock(a, b, c);
      DomValueRange(a, b, c);
      vals[r.dest] := s;
  }

  lemma ShadowRoundsStep(rounds: seq<RoundDraw>, i: nat, vals: seq<int>)
    requires i < |rounds| && |vals| == 4 && Int32s(vals)
    requires forall k :: 0 <= k < |rounds| ==> ValidRound(rounds[k])
    ensures ValidRound(rounds[i]) && Int32s(vals[rounds[i].dest := ShadowRound(rounds[i], vals)])
    ensures ShadowRounds(rounds[i..], vals)
         == ShadowRounds(rounds[i + 1..], vals[rounds[i].dest := ShadowRound(rounds[i], vals)])
  {
    var r := rounds[i];
    DomValueRange(vals[r.src1], vals[r.src2], vals[r.src3]);
    assert rounds[i..][1..] == rounds[i + 1..];
  }

  lemma EmitRoundsSnoc(rounds: seq<RoundDraw>, vars: seq<string>, i: nat)
    requires i < |rounds| && |vars| == 4 && forall k :: 0 <= k < |rounds| ==> ValidRound(rounds[k])
    ensures EmitRounds(rounds[..i + 1], vars) == EmitRounds(rounds[..i], vars) + [EmitRound(rounds[i], vars)]
  {
  }

  lemma EmitMasksSnoc(vars: seq<string>, salts: seq<int>, i: nat)
    requires i < |vars| == |salts|
    ensures EmitMasks(vars[..i + 1], salts[..i + 1]) == EmitMasks(vars[..i], salts[..i]) + [EmitMask(vars[i], salts[i])]
  {
  }

  method GenerateRounds(d: Draws, head: seq<Stmt>, vals: array<int>) returns (program: seq<Stmt>)
    requires ValidDraws(d) && vals.Length == 4 && Int32s(vals[..])
    modifies vals
    ensures program == head + EmitRounds(d.rounds, d.vars)
    ensures vals[..] == ShadowRounds(d.rounds, old(vals[..]))
  {
    program := head;
    var i := 0;
    while i < |d.rounds|
      invariant 0 <= i <= |d.rounds| && Int32s(vals[..])
      invariant program == head + EmitRounds(d.rounds[..i], d.vars)
      invariant ShadowRounds(d.rounds[i..], vals[..]) == ShadowRounds(d.rounds, old(vals[..]))
    {
      ShadowRoundsStep(d.rounds, i, vals[..]);
      ShadowStep(d.rounds[i], vals);
      program := program + [EmitRound(d.rounds[i], d.vars)];
      EmitRoundsSnoc(d.rounds, d.vars, i);
      i := i + 1;
    }
    assert d.rounds[..i] == d.rounds && d.rounds[i..] == [];
  }

  method GenerateMasks(d: Draws, body: seq<Stmt>, vals: array<int>) returns (program: seq<Stmt>)
    requires ValidDraws(d) && vals.Length == 4
    modifies vals
    ensures program == body + EmitMasks(d.vars, d.salts)
    ensures vals[..] == ShadowMasks(old(vals[..]), d.salts)
  {
    program := body;
    var i := 0;
    while i < 4
      invariant 0 <= i <= 4
      invariant program == body + EmitMasks(d.vars[..i], d.salts[..i])
      invariant forall j :: 0 <= j < i ==> vals[j] == ShadowMask(old(vals[j]), d.salts[j])
      invariant forall j :: i <= j < 4 ==> vals[j] == old(vals[j])
    {
      program := program + [EmitMask(d.vars[i], d.salts[i])];
      EmitMasksSnoc(d.vars, d.salts, i);
      vals[i] := TruncRem(Int32Op(And, Int32Op(Xor, vals[i], d.salts[i]), 0x7FFF_FFFF), 900_000) + 100_000;
      i := i + 1;
    }
    assert d.vars[..i] == d.vars && d.salts[..i] == d.salts;
  }

  /** The program and the expected values come out of the same loops. */
  method GenerateProgram(d: Draws) returns (program: seq<Stmt>, vals: array<int>)
    requires ValidDraws(d)
    ensures program == Emit(d)
    ensures fresh(vals) && vals[..] == Shadow(d)
  {
    vals := new int[4](i requires 0 <= i < 4 => d.initVals[i]);
    assert vals[..] == d.initVals;
    vals[0] := Int32Op(Xor, vals[0], d.correctKey);
    program := GenerateRounds(d, [EmitKey(d.vars[0], d.correctKey, d.badKey)], vals);
    program := GenerateMasks(d, program, vals);
  }

  // ----- the compiler is correct -----

  /** The JavaScript variables hold the shadow values, possibly as -0. */
  ghost predicate Related(env: Env, vars: seq<string>, vals: seq<int>) {
    && |vars| == |vals| == 4 && Int32s(vals)
    && forall i :: 0 <= i < 4 ==> vars[i] in env && Agrees(env[vars[i]], vals[i])
  }

  lemma DomResultAgrees(x: Number, y: Number, z: Number)
    ensures Agrees(DomResult(x, y, z), DomValue(Val(x), Val(y), Val(z)))
  {
  }

  lemma PrototypeRound(x: Number, y: Number, w: Number, a: int32, b: int32, d: int32)
    requires Agrees(x, a) && Agrees(y, b) && Agrees(w, d)
    ensures PrototypeHelper(x, y, w) == Some(Fin(Int32Op(Or, Int32Op(Xor, b, a), Int32Op(Xor, d, b))))
  {
    PrototypeHelperMeaning(x, y, w);
    var p, q := Int32Op(Xor, b, a), Int32Op(Xor, d, b);
    BitNumAgrees(Xor, y, x, b, a);
    BitNumAgrees(Xor, w, y, d, b);
    BitNumAgrees(Or, Fin(p), Fin(q), p, q);
  }

  lemma {:induction false} BitRound(r: RoundDraw, vars: seq<string>, vals: seq<int>, env: Env, userAgent: string)
    requires ValidRound(r) && r.op <= 3 && Related(env, vars, vals)
    ensures var v := Eval(EmitRound(r, vars).e, env, userAgent); v == Some(Fin(ShadowRound(r, vals)))
  {
    var vD, v1 := Variable(vars[r.dest]), Variable(vars[r.src1]);
    var a, d := vals[r.src1], vals[r.dest];
    EvalVariable(vars[r.dest], env, userAgent);
    EvalVariable(vars[r.src1], env, userAgent);
    var op := if r.op == 1 then Xor else if r.op == 2 then Or else And;
    EvalBits(op, vD, v1, env, userAgent, d, a);
    EvalNot(Bits(op, vD, v1), env, userAgent, Int32Op(op, d, a));
  }

  lemma {:induction false} PrototypeHelperRound(r: RoundDraw, vars: seq<string>, vals: seq<int>, env: Env,
                                                userAgent: string)
    requires ValidRound(r) && r.op == 4 && Related(env, vars, vals)
    ensures Eval(EmitRound(r, vars).e, env, userAgent) == Some(Fin(ShadowRound(r, vals)))
  {
    var v1, v2, vD := vars[r.src1], vars[r.src2], vars[r.dest];
    EvalVariable(v1, env, userAgent);
    EvalVariable(v2, env, userAgent);
    EvalVariable(vD, env, userAgent);
    EvalPrototypeHelper(CallPrototypeHelper(Variable(v1), Variable(v2), Variable(vD)), env, userAgent, env[v1],
                        env[v2], env[vD]);
    PrototypeRound(env[v1], env[v2], env[vD], vals[r.src1], vals[r.src2], vals[r.dest]);
  }

  lemma {:induction false} DomHelperRound(r: RoundDraw, vars: seq<string>, vals: seq<int>, env: Env, userAgent: string)
    requires ValidRound(r) && r.op == 5 && Related(env, vars, vals)
    ensures var v := Eval(EmitRound(r, vars).e, env, userAgent); v.Some? && Agrees(v.value, ShadowRound(r, vals))
  {
    var v1, v2, v3 := vars[r.src1], vars[r.src2], vars[r.src3];
    EvalVariable(v1, env, userAgent);
    EvalVariable(v2, env, userAgent);
    EvalVariable(v3, env, userAgent);
    EvalDomHelper(EmitRound(r, vars).e, env, userAgent, env[v1], env[v2], env[v3]);
    DomRound(env[v1], env[v2], env[v3], vals[r.src1], vals[r.src2], vals[r.src3]);
  }

  lemma DomRound(x: Number, y: Number, z: Number, a: int32, b: int32, c: int32)
    requires Agrees(x, a) && Agrees(y, b) && Agrees(z, c)
    ensures Agrees(DomResult(x, y, z), DomValue(a, b, c))
  {
    DomResultAgrees(x, y, z);
  }

  lemma {:induction false} RoundEval(r: RoundDraw, vars: seq<string>, vals: seq<int>, env: Env, userAgent: string)
    requires ValidRound(r) && Related(env, vars, vals)
    ensures var v := Eval(EmitRound(r, vars).e, env, userAgent); v.Some? && Agrees(v.value, ShadowRound(r, vals))
  {
    if r.op <= 3 {
      BitRound(r, vars, vals, env, userAgent);
    } else if r.op == 4 {
      PrototypeHelperRound(r, vars, vals, env, userAgent);
    } else {
      DomHelperRound(r, vars, vals, env, userAgent);
    }
  }

  lemma RelatedUpdate(env: Env, vars: seq<string>, vals: seq<int>, k: nat, x: Number, v: int)
    requires Distinct(vars) && Related(env, vars, vals) && k < 4 && Agrees(x, v) && -TWO31 <= v < TWO31
    ensures Related(env[vars[k] := x], vars, vals[k := v])
  {
  }

  lemma ShadowRoundRange(r: RoundDraw, vals: seq<int>)
    requires ValidRound(r) && |vals| == 4 && Int32s(vals)
    ensures -TWO31 <= ShadowRound(r, vals) < TWO31
  {
    DomValueRange(vals[r.src1], vals[r.src2], vals[r.src3]);
  }

  lemma {:induction false} RoundsExec(rounds: seq<RoundDraw>, vars: seq<string>, vals: seq<int>, env: Env,
                                      userAgent: string)
    requires Distinct(vars) && Related(env, vars, vals)
    requires forall i :: 0 <= i < |rounds| ==> ValidRound(rounds[i])
    ensures var out := Exec(EmitRounds(rounds, vars), env, userAgent);
      out.Some? && Related(out.value, vars, ShadowRounds(rounds, vals))
  {
    if rounds != [] {
      var r := rounds[0];
      RoundKeepsRelated(r, vars, vals, env, userAgent);
      var x, v := Eval(EmitRound(r, vars).e, env, userAgent).value, ShadowRound(r, vals);
      EmitRoundsTail(rounds, vars);
      ExecStep(EmitRounds(rounds, vars), env, userAgent, x);
      ShadowRoundsTail(rounds, vals);
      RoundsExec(rounds[1..], vars, vals[r.dest := v], env[vars[r.dest] := x], userAgent);
    }
  }

  lemma RoundKeepsRelated(r: RoundDraw, vars: seq<string>, vals: seq<int>, env: Env, userAgent: string)
    requires ValidRound(r) && Distinct(vars) && Related(env, vars, vals)
    ensures var x, v := Eval(EmitRound(r, vars).e, env, userAgent), ShadowRound(r, vals);
      x.Some? && Related(env[vars[r.dest] := x.value], vars, vals[r.dest := v])
  {
    RoundEval(r, vars, vals, env, userAgent);
    ShadowRoundRange(r, vals);
    RelatedUpdate(env, vars, vals, r.dest, Eval(EmitRound(r, vars).e, env, userAgent).value, ShadowRound(r, vals));
  }

  lemma EmitRoundsTail(rounds: seq<RoundDraw>, vars: seq<string>)
    requires rounds != [] && |vars| == 4 && forall i :: 0 <= i < |rounds| ==> ValidRound(rounds[i])
    ensures EmitRounds(rounds, vars)[0] == EmitRound(rounds[0], vars)
    ensures EmitRounds(rounds, vars)[1..] == EmitRounds(rounds[1..], vars)
  {
  }

  lemma ShadowRoundsTail(rounds: seq<RoundDraw>, vals: seq<int>)
    requires rounds != [] && |vals| == 4 && Int32s(vals) && forall i :: 0 <= i < |rounds| ==> ValidRound(rounds[i])
    ensures var v := ShadowRound(rounds[0], vals);
      && Int32s(vals[rounds[0].dest := v])
      && ShadowRounds(rounds, vals) == ShadowRounds(rounds[1..], vals[rounds[0].dest := v])
  {
    ShadowRoundRange(rounds[0], vals);
  }

  lemma MaskRange(v: int, salt: int)
    ensures 100_000 <= ShadowMask(v, salt) <= 999_999
  {
    AndMask31(Int32Op(Xor, v, salt));
  }

  lemma {:induction false} MaskEval(name: string, salt: int32, v: int32, env: Env, userAgent: string)
    requires name in env && Agrees(env[name], v)
    ensures Eval(EmitMask(name, salt).e, env, userAgent) == Some(Fin(ShadowMask(v, salt)))
  {
    var m := Bits(And, Bits(Xor, Variable(name), Literal(salt)), Literal(0x7FFF_FFFF));
    var u := Int32Op(Xor, v, salt);
    MaskedBits(name, salt, v, env, userAgent);
    AndMask31(u);
    MaskTail(m, Int32Op(And, u, 0x7FFF_FFFF), env, userAgent);
    assert EmitMask(name, salt).e == Plus(Remainder(m, 900_000), Literal(100_000));
  }

  lemma {:induction false} MaskedBits(name: string, salt: int32, v: int32, env: Env, userAgent: string)
    requires name in env && Agrees(env[name], v)
    ensures Eval(Bits(And, Bits(Xor, Variable(name), Literal(salt)), Literal(0x7FFF_FFFF)), env, userAgent)
         == Some(Fin(Int32Op(And, Int32Op(Xor, v, salt), 0x7FFF_FFFF)))
  {
    EvalBits(Xor, Variable(name), Literal(salt), env, userAgent, v, salt);
    EvalBits(And, Bits(Xor, Variable(name), Literal(salt)), Literal(0x7FFF_FFFF), env, userAgent,
             Int32Op(Xor, v, salt), 0x7FFF_FFFF);
  }

  lemma {:induction false} MaskTail(m: Expr, w: int, env: Env, userAgent: string)
    requires Eval(m, env, userAgent) == Some(Fin(w)) && 0 <= w
    ensures Eval(Plus(Remainder(m, 900_000), Literal(100_000)), env, userAgent)
         == Some(Fin(TruncRem(w, 900_000) + 100_000))
  {
    var rem := Remainder(m, 900_000);
    RemOfNonNegative(w, 900_000);
    AddExact(w % 900_000, 100_000);
    assert Eval(rem, env, userAgent) == Some(Fin(w % 900_000));
    assert Eval(Literal(100_000), env, userAgent) == Some(Fin(100_000));
  }

  /** The masking statements from the k-th on finish their own variables and touch no others. */
  lemma {:induction false} MasksExec(k: nat, vars: seq<string>, salts: seq<int>, vals: seq<int>, env: Env,
                                     userAgent: string)
    requires k <= |vars| == |salts| == |vals| && Distinct(vars) && Int32s(vals)
    requires forall i :: 0 <= i < |vars| ==> 0 <= salts[i] < TWO31 && vars[i] in env
    requires forall i :: k <= i < |vars| ==> Agrees(env[vars[i]], vals[i])
    ensures var out := Exec(EmitMasks(vars, salts)[k..], env, userAgent);
      && out.Some?
      && forall i :: 0 <= i < |vars| ==>
           && vars[i] in out.value
           && out.value[vars[i]] == if i < k then env[vars[i]] else Fin(ShadowMask(vals[i], salts[i]))
    decreases |vars| - k
  {
    if k < |vars| {
      MaskEval(vars[k], salts[k], vals[k], env, userAgent);
      var p := EmitMasks(vars, salts)[k..];
      assert p[0] == EmitMask(vars[k], salts[k]) && p[1..] == EmitMasks(vars, salts)[k + 1..];
      MasksExec(k + 1, vars, salts, vals, env[vars[k] := Fin(ShadowMask(vals[k], salts[k]))], userAgent);
    }
  }

  lemma {:induction false} InitEnvHolds(vars: seq<string>, initVals: seq<int>)
    requires Distinct(vars) && |vars| <= |initVals|
    ensures var env := InitEnv(vars, initVals);
      forall i :: 0 <= i < |vars| ==> vars[i] in env && env[vars[i]] == Fin(initVals[i])
  {
    if vars != [] {
      InitEnvHolds(vars[..|vars| - 1], initVals);
    }
  }

  /** What an honest browser runs. */
  function RunProgram(d: Draws, userAgent: string): Option<Env>
    requires ValidDraws(d)
  {
    Exec(Emit(d), InitEnv(d.vars, d.initVals), userAgent)
  }

  lemma {:induction false} KeyExec(d: Draws, userAgent: string)
    requires ValidDraws(d) && Distinct(d.vars) && userAgent != ""
    ensures var out := Exec([EmitKey(d.vars[0], d.correctKey, d.badKey)], InitEnv(d.vars, d.initVals), userAgent);
      && out.Some?
      && Related(out.value, d.vars, d.initVals[0 := Int32Op(Xor, d.initVals[0], d.correctKey)])
  {
    InitEnvHolds(d.vars, d.initVals);
    var env := InitEnv(d.vars, d.initVals);
    var s := EmitKey(d.vars[0], d.correctKey, d.badKey);
    var key := ByUserAgent(Literal(d.correctKey), Literal(d.badKey));
    assert Eval(key, env, userAgent) == Eval(Literal(d.correctKey), env, userAgent) == Some(Fin(d.correctKey));
    EvalBits(Xor, Variable(d.vars[0]), key, env, userAgent, d.initVals[0], d.correctKey);
    var x := Fin(Int32Op(Xor, d.initVals[0], d.correctKey));
    assert Eval(s.e, env, userAgent) == Some(x);
    assert [s][1..] == [];
    assert Exec([s], env, userAgent) == Exec([], env[d.vars[0] := x], userAgent);
  }

  /**
   * Compiler correctness: a browser with a user agent that runs the emitted program reports exactly the
   * values the server computed while emitting it, each a six-digit number.
   */
  lemma ProgramMeetsShadow(d: Draws, userAgent: string)
    requires ValidDraws(d) && Distinct(d.vars) && userAgent != ""
    ensures RunProgram(d, userAgent).Some?
    ensures forall i :: 0 <= i < 4 ==>
              && d.vars[i] in RunProgram(d, userAgent).value
              && RunProgram(d, userAgent).value[d.vars[i]] == Fin(Shadow(d)[i])
              && 100_000 <= Shadow(d)[i] <= 999_999
  {
    var key := [EmitKey(d.vars[0], d.correctKey, d.badKey)];
    var rounds, masks := EmitRounds(d.rounds, d.vars), EmitMasks(d.vars, d.salts);
    var env := InitEnv(d.vars, d.initVals);
    var start := d.initVals[0 := Int32Op(Xor, d.initVals[0], d.correctKey)];
    KeyExec(d, userAgent);
    ExecConcat(key, rounds, env, userAgent);
    RoundsExec(d.rounds, d.vars, start, Exec(key, env, userAgent).value, userAgent);
    var mid := Exec(key + rounds, env, userAgent).value;
    var vals := ShadowRounds(d.rounds, start);
    ExecConcat(key + rounds, masks, env, userAgent);
    assert masks[0..] == masks;
    MasksExec(0, d.vars, d.salts, vals, mid, userAgent);
    forall i | 0 <= i < 4
      ensures Shadow(d)[i] == ShadowMask(vals[i], d.salts[i]) && 100_000 <= Shadow(d)[i] <= 999_999
    {
      MaskRange(vals[i], d.salts[i]);
    }
  }
}
