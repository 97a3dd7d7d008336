/** The JavaScript Numbers this system computes with: integral doubles, with both zeros. */
module JsNumber {
  import opened Int32

  const MAX_EXACT := 0x20_0000_0000_0000 // 2^53

  // ----- rounding an integer to a double -----

  /** The spacing of the doubles around m. */
  function Ulp(m: nat): (u: nat)
    ensures u >= 1
    ensures m < MAX_EXACT ==> u == 1
  {
    if m < MAX_EXACT then 1 else 2 * Ulp(m / 2)
  }

  /** Nearest double, ties to the even significand. */
  function RoundNat(m: nat): nat {
    var u := Ulp(m);
    var q, r := m / u, m % u;
    if 2 * r < u || (2 * r == u && q % 2 == 0) then q * u else (q + 1) * u
  }

  function Round(n: int): int {
    if n < 0 then 0 - RoundNat(-n) else RoundNat(n)
  }

  lemma QuotientSteps(m: nat, u: nat)
    requires u >= 1
    ensures m == m / u * u + m % u
    ensures (m / u + 1) * u == m / u * u + u
  {
  }

  /** The doubles around m are the multiples of their spacing. */
  lemma {:induction false} RoundNatExactIff(m: nat)
    ensures RoundNat(m) == m <==> m % Ulp(m) == 0
  {
    var u := Ulp(m);
    QuotientSteps(m, u);
    assert RoundNat(m) == m / u * u || RoundNat(m) == (m / u + 1) * u;
  }

  lemma RoundExact(n: int)
    ensures -MAX_EXACT <= n <= MAX_EXACT ==> Round(n) == n
  {
    var m: nat := if n < 0 then -n else n;
    if m < MAX_EXACT {
      assert m / 1 == m && m % 1 == 0;
    } else if m == MAX_EXACT {
      assert Ulp(m) == 2 * Ulp(m / 2) == 2;
    }
  }

  // ----- Numbers -----

  datatype Number = Fin(n: int) | NegZero

  /** The mathematical value. */
  function Val(x: Number): int {
    match x
    case Fin(n) => n
    case NegZero => 0
  }

  function BitNum(op: BitOp, x: Number, y: Number): Number {
    Fin(Int32Op(op, ToInt32(Val(x)), ToInt32(Val(y))))
  }

  function NotNum(x: Number): Number {
    Fin(Complement(ToInt32(Val(x))))
  }

  /** x >> 1 */
  function ShiftRight1(x: Number): Number {
    Fin(ToInt32(Val(x)) / 2)
  }

  /** Addition rounds to a double, and only -0 + -0 is -0. */
  function AddNum(x: Number, y: Number): Number {
    if x.NegZero? && y.NegZero? then NegZero else Fin(Round(Val(x) + Val(y)))
  }

  /** Truncated remainder, as in Go and in section 6.1.6.1.6 of ECMA-262. */
  function TruncRem(a: int, d: int): int
    requires d > 0
  {
    if a < 0 then -((-a) % d) else a % d
  }

  /** The remainder takes the sign of the dividend, so a negative multiple of d leaves -0. */
  function RemNum(x: Number, d: int): Number
    requires d > 0
  {
    var r := TruncRem(Val(x), d);
    if r == 0 && (x.NegZero? || Val(x) < 0) then NegZero else Fin(r)
  }

  // ----- agreement with Go's int32 -----

  /** x is the Number for v, possibly as -0. */
  predicate Agrees(x: Number, v: int) {
    Val(x) == v
  }

  lemma BitNumAgrees(op: BitOp, x: Number, y: Number, a: int32, b: int32)
    requires Agrees(x, a) && Agrees(y, b)
    ensures BitNum(op, x, y) == Fin(Int32Op(op, a, b))
  {
    ToInt32Identity(a);
    ToInt32Identity(b);
  }

  /** (v & 1) == 0 */
  lemma EvenTest(v: Number)
    requires -TWO31 <= Val(v) < TWO31
    ensures BitNum(And, v, Fin(1)) == Fin(0) <==> Val(v) % 2 == 0
  {
    ToInt32Identity(Val(v));
    ToInt32Identity(1);
    AndOne(Val(v));
  }

  /** v >> 1 */
  lemma Halved(v: Number)
    requires -TWO31 <= Val(v) < TWO31
    ensures Val(ShiftRight1(v)) == Val(v) / 2
  {
    ToInt32Identity(Val(v));
  }

  lemma AddExact(a: int, b: int)
    requires -MAX_EXACT <= a + b <= MAX_EXACT
    ensures AddNum(Fin(a), Fin(b)) == Fin(a + b)
  {
    RoundExact(a + b);
  }

  lemma RemOfNonNegative(a: int, d: int)
    requires 0 <= a && d > 0
    ensures RemNum(Fin(a), d) == Fin(a % d) && TruncRem(a, d) == a % d
  {
  }
}
