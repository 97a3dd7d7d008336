/** The part of JavaScript the emitted program uses, with its two helper functions. */
module JsProgram {
  import opened DomSum
  import opened Int32
  import opened JsNumber
  import opened Numerals

  // ----- objects and prototypes -----

  /** A property holds a Number, or the method `function(){return this.k^d}` with its captured d. */
  datatype Value = NumV(n: Number) | MethodV(d: Number)

  datatype Object = Object(proto: Option<nat>, own: map<string, Value>)

  type Heap = seq<Object>

  /** Property lookup along the prototype chain; a prototype is always allocated before its users. */
  function Get(h: Heap, o: nat, key: string): Option<Value>
    decreases o, h
  {
    if o >= |h| then None
    else if key in h[o].own then Some(h[o].own[key])
    else match h[o].proto
      case None => None
      case Some(p) => if p < o then Get(h, p, key) else None
  }

  /** o.v(): this.k ^ d, where an undefined k counts as 0 and leaves d as an int32. */
  function CallV(h: Heap, o: nat): Option<Number> {
    match (Get(h, o, "v"), Get(h, o, "k"))
    case (Some(MethodV(d)), Some(NumV(k))) => Some(BitNum(Xor, k, d))
    case (Some(MethodV(d)), _) => Some(Fin(ToInt32(Val(d))))
    case _ => None
  }

  /** `new F(d)`: the prototype is the value F.prototype has at the time of the call. */
  function NewF(h: Heap, prototypeOfF: nat, d: Number): Heap {
    h + [Object(Some(prototypeOfF), map["v" := MethodV(d)])]
  }

  /**
   * The heap when the first helper calls its methods: i was made before F.prototype became p and then
   * got its own k; the second object was made after, so it finds k on p.
   */
  function HelperHeap(a: Number, b: Number, c: Number): Heap {
    var h := [Object(None, map[])]; // 0: the prototype object F is born with
    var h := h + [Object(None, map["k" := NumV(c)])]; // 1: p
    var h := NewF(h, 0, a); // 2: i
    var h := h[2 := h[2].(own := h[2].own["k" := NumV(b)])];
    NewF(h, 1, b) // 3
  }

  function PrototypeHelper(a: Number, b: Number, c: Number): Option<Number> {
    var h := HelperHeap(a, b, c);
    match (CallV(h, 2), CallV(h, 3))
    case (Some(x), Some(y)) => Some(BitNum(Or, x, y))
    case _ => None
  }

  lemma HelperHeapObjects(a: Number, b: Number, c: Number)
    ensures var h := HelperHeap(a, b, c);
      && |h| == 4
      && h[1] == Object(None, map["k" := NumV(c)])
      && h[2] == Object(Some(0), map["v" := MethodV(a)]["k" := NumV(b)])
      && h[3] == Object(Some(1), map["v" := MethodV(b)])
  {
  }

  lemma OwnCall(h: Heap, o: nat, d: Number, k: Number)
    requires o < |h| && h[o].own == map["v" := MethodV(d)]["k" := NumV(k)]
    ensures CallV(h, o) == Some(BitNum(Xor, k, d))
  {
    var v, n := "v", "k";
    assert v != n;
    assert Get(h, o, v) == Some(MethodV(d)) && Get(h, o, n) == Some(NumV(k));
  }

  lemma InheritedCall(h: Heap, o: nat, p: nat, d: Number, k: Number)
    requires p < o < |h| && h[o] == Object(Some(p), map["v" := MethodV(d)])
    requires h[p] == Object(None, map["k" := NumV(k)])
    ensures CallV(h, o) == Some(BitNum(Xor, k, d))
  {
    var v, n := "v", "k";
    assert v != n && n !in h[o].own && n in h[p].own;
    assert Get(h, o, v) == Some(MethodV(d));
    assert Get(h, p, n) == Some(NumV(k));
    assert Get(h, o, n) == Get(h, p, n);
  }

  lemma PrototypeHelperMeaning(a: Number, b: Number, c: Number)
    ensures PrototypeHelper(a, b, c) == Some(BitNum(Or, BitNum(Xor, b, a), BitNum(Xor, c, b)))
  {
    var h := HelperHeap(a, b, c);
    HelperHeapObjects(a, b, c);
    OwnCall(h, 2, a, b);
    InheritedCall(h, 3, 1, b, c);
  }

  /** The second helper on Numbers that are int32 values: what the element-tree walk computes. */
  function DomResult(x: Number, y: Number, z: Number): Number {
    RemNum(Fin(Sum(AllValues(Val(x), Val(y), Val(z)))), 256)
  }

  // ----- expressions and statements -----

  datatype Expr =
    | Literal(n: int)
    | Variable(name: string)
    | Not(e: Expr)
    | Bits(op: BitOp, left: Expr, right: Expr)
    | Remainder(left: Expr, divisor: int)
    | Plus(left: Expr, right: Expr)
    | ByUserAgent(present: Expr, absent: Expr)
    | CallPrototypeHelper(a: Expr, b: Expr, c: Expr)
    | CallDomHelper(x: Expr, y: Expr, z: Expr)

  datatype Stmt = Assign(name: string, e: Expr)

  type Env = map<string, Number>

  /** None is an exception: an undeclared variable, a missing method, a non-positive divisor. */
  function Eval(e: Expr, env: Env, userAgent: string): Option<Number> {
    match e
    case Literal(n) => Some(Fin(n))
    case Variable(name) => if name in env then Some(env[name]) else None
    case Not(a) =>
      (match Eval(a, env, userAgent)
       case Some(x) => Some(NotNum(x))
       case None => None)
    case Bits(op, a, b) =>
      (match (Eval(a, env, userAgent), Eval(b, env, userAgent))
       case (Some(x), Some(y)) => Some(BitNum(op, x, y))
       case _ => None)
    case Remainder(a, d) =>
      (match Eval(a, env, userAgent)
       case Some(x) => if d > 0 then Some(RemNum(x, d)) else None
       case None => None)
    case Plus(a, b) =>
      (match (Eval(a, env, userAgent), Eval(b, env, userAgent))
       case (Some(x), Some(y)) => Some(AddNum(x, y))
       case _ => None)
    case ByUserAgent(a, b) =>
      if userAgent != "" then Eval(a, env, userAgent) else Eval(b, env, userAgent)
    case CallPrototypeHelper(a, b, c) =>
      (match (Eval(a, env, userAgent), Eval(b, env, userAgent), Eval(c, env, userAgent))
       case (Some(x), Some(y), Some(z)) => PrototypeHelper(x, y, z)
       case _ => None)
    case CallDomHelper(a, b, c) =>
      (match (Eval(a, env, userAgent), Eval(b, env, userAgent), Eval(c, env, userAgent))
       case (Some(x), Some(y), Some(z)) => Some(DomResult(x, y, z))
       case _ => None)
  }

  function Exec(program: seq<Stmt>, env: Env, userAgent: string): Option<Env> {
    if program == [] then Some(env)
    else
      var s := program[0];
      match Eval(s.e, env, userAgent)
      case None => None
      case Some(x) => Exec(program[1..], env[s.name := x], userAgent)
  }

  lemma {:induction false} ExecConcat(p: seq<Stmt>, q: seq<Stmt>, env: Env, userAgent: string)
    ensures Exec(p + q, env, userAgent) ==
            match Exec(p, env, userAgent)
            case None => None
            case Some(mid) => Exec(q, mid, userAgent)
  {
    if p == [] {
      assert p + q == q;
    } else {
      assert (p + q)[1..] == p[1..] + q;
      match Eval(p[0].e, env, userAgent)
      case None =>
      case Some(x) => ExecConcat(p[1..], q, env[p[0].name := x], userAgent);
    }
  }

  /** A bit operator on operands that hold int32 values. */
  lemma {:induction false} EvalBits(op: BitOp, a: Expr, b: Expr, env: Env, userAgent: string, v: int32, w: int32)
    requires Eval(a, env, userAgent).Some? && Agrees(Eval(a, env, userAgent).value, v)
    requires Eval(b, env, userAgent).Some? && Agrees(Eval(b, env, userAgent).value, w)
    ensures Eval(Bits(op, a, b), env, userAgent) == Some(Fin(Int32Op(op, v, w)))
  {
    BitNumAgrees(op, Eval(a, env, userAgent).value, Eval(b, env, userAgent).value, v, w);
  }

  /** A call of the first helper on evaluated arguments. */
  lemma {:induction false} EvalPrototypeHelper(e: Expr, env: Env, userAgent: string, x: Number, y: Number, z: Number)
    requires e.CallPrototypeHelper?
    requires Eval(e.a, env, userAgent) == Some(x) && Eval(e.b, env, userAgent) == Some(y)
    requires Eval(e.c, env, userAgent) == Some(z)
    ensures Eval(e, env, userAgent) == PrototypeHelper(x, y, z)
  {
  }

  lemma {:induction false} EvalDomHelper(e: Expr, env: Env, userAgent: string, x: Number, y: Number, z: Number)
    requires e.CallDomHelper?
    requires Eval(e.x, env, userAgent) == Some(x) && Eval(e.y, env, userAgent) == Some(y)
    requires Eval(e.z, env, userAgent) == Some(z)
    ensures Eval(e, env, userAgent) == Some(DomResult(x, y, z))
  {
  }

  lemma {:induction false} EvalVariable(name: string, env: Env, userAgent: string)
    requires name in env
    ensures Eval(Variable(name), env, userAgent) == Some(env[name])
  {
  }

  lemma {:induction false} EvalNot(a: Expr, env: Env, userAgent: string, v: int32)
    requires Eval(a, env, userAgent) == Some(Fin(v))
    ensures Eval(Not(a), env, userAgent) == Some(Fin(Complement(v)))
  {
    ToInt32Identity(v);
  }

  lemma ExecStep(p: seq<Stmt>, env: Env, userAgent: string, x: Number)
    requires p != [] && Eval(p[0].e, env, userAgent) == Some(x)
    ensures Exec(p, env, userAgent) == Exec(p[1..], env[p[0].name := x], userAgent)
  {
  }
}
