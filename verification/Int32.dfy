/** 32-bit two's-complement arithmetic, shared by Go's int32/uint32 and JavaScript's bit operators. */
module Int32 {
  import opened Arith

  const TWO31 := 0x8000_0000
  const TWO32 := 0x1_0000_0000

  type int32 = n: int | -0x8000_0000 <= n < 0x8000_0000

  /** ToUint32 (section 7.1.7 of ECMA-262) on integers. */
  function ToUint32(n: int): (u: int)
    ensures 0 <= u < TWO32
  {
    n % TWO32
  }

  /** ToInt32 (section 7.1.6 of ECMA-262) on integers. */
  function ToInt32(n: int): int32 {
    var u := n % TWO32;
    if u >= TWO31 then u - TWO32 else u
  }

  datatype BitOp = And | Or | Xor

  function OnBits(op: BitOp, a: int, b: int): (r: int)
    ensures 0 <= r <= 1
  {
    match op
    case And => if a == 1 && b == 1 then 1 else 0
    case Or => if a == 1 || b == 1 then 1 else 0
    case Xor => if a != b then 1 else 0
  }

  /**
   * The n low-order bits of a op b; negative numbers have infinitely many leading ones.
   * (The measure names a and b only to keep the verifier from unrolling all 32 steps.)
   */
  function LowBits(op: BitOp, a: int, b: int, n: nat): int
    decreases n, a - a, b - b
  {
    if n == 0 then 0 else OnBits(op, a % 2, b % 2) + 2 * LowBits(op, a / 2, b / 2, n - 1)
  }

  /** The bit operators on Go's uint32. */
  function Uint32Op(op: BitOp, a: int, b: int): int {
    LowBits(op, a, b, 32)
  }

  /** The bit operators on int32. */
  function Int32Op(op: BitOp, a: int, b: int): int32 {
    ToInt32(Uint32Op(op, a, b))
  }

  function Complement(a: int32): int32 {
    -1 - a
  }

  lemma Pow2Of32()
    ensures Pow2(32) == TWO32
    ensures Pow2(31) == TWO31
  {
    assert Pow2(8) == 256;
    assert Pow2(16) == 0x1_0000 by { PowAdd(2, 8, 8); }
    PowAdd(2, 16, 16);
  }

  lemma ToInt32Identity(n: int)
    ensures -TWO31 <= n < TWO31 ==> ToInt32(n) == n
    ensures ToInt32(n) % TWO32 == n % TWO32
  {
  }

  lemma {:induction false} LowBitsRange(op: BitOp, a: int, b: int, n: nat)
    ensures 0 <= LowBits(op, a, b, n) < Pow2(n)
    decreases n
  {
    if n > 0 {
      LowBitsRange(op, a / 2, b / 2, n - 1);
    }
  }

  lemma Uint32OpRange(op: BitOp, a: int, b: int)
    ensures 0 <= Uint32Op(op, a, b) < TWO32
  {
    Pow2Of32();
    LowBitsRange(op, a, b, 32);
  }

  // ----- bit operators see only the low-order bits -----

  lemma HalfMod(a: int, m: int)
    requires m > 0
    ensures a % (2 * m) % 2 == a % 2 && a % (2 * m) / 2 == a / 2 % m
    ensures a % (2 * m) == a % 2 + 2 * (a / 2 % m)
  {
    var k, r := a / (2 * m), a % (2 * m);
    assert a == (2 * m) * k + r;
    assert (2 * m) * k == 2 * (m * k);
    assert a / 2 == m * k + r / 2;
    assert m * k == k * m;
    DivModUnique(a / 2, k, m, r / 2);
  }

  lemma {:induction false} LowBitsMod(op: BitOp, a: int, b: int, n: nat)
    ensures LowBits(op, a % Pow2(n), b % Pow2(n), n) == LowBits(op, a, b, n)
    decreases n
  {
    if n > 0 {
      HalfMod(a, Pow2(n - 1));
      HalfMod(b, Pow2(n - 1));
      LowBitsMod(op, a / 2, b / 2, n - 1);
    }
  }

  lemma Uint32OpMod(op: BitOp, a: int, b: int, c: int, d: int)
    requires a % TWO32 == c % TWO32 && b % TWO32 == d % TWO32
    ensures Uint32Op(op, a, b) == Uint32Op(op, c, d)
  {
    Pow2Of32();
    LowBitsMod(op, a, b, 32);
    LowBitsMod(op, c, d, 32);
  }

  // ----- masks -----

  lemma {:induction false} MaskLowBits(a: int, k: nat, n: nat, mask: int)
    requires k <= n && mask == Pow2(k) - 1
    ensures LowBits(And, a, mask, n) == a % Pow2(k)
    decreases n
  {
    if k == 0 {
      AndZero(a, n);
    } else {
      MaskLowBits(a / 2, k - 1, n - 1, mask / 2);
      HalfMod(a, Pow2(k - 1));
      assert mask % 2 == 1;
    }
  }

  lemma {:induction false} AndZero(a: int, n: nat)
    ensures LowBits(And, a, 0, n) == 0
    decreases n
  {
    if n > 0 {
      AndZero(a / 2, n - 1);
    }
  }

  lemma AndMask31(a: int)
    ensures Int32Op(And, a, 0x7FFF_FFFF) == a % TWO31
  {
    Pow2Of32();
    MaskLowBits(a, 31, 32, 0x7FFF_FFFF);
    ToInt32Identity(a % TWO31);
  }

  lemma AndOne(a: int)
    ensures Int32Op(And, a, 1) == a % 2
  {
    assert Pow2(1) == 2;
    MaskLowBits(a, 1, 32, 1);
    ToInt32Identity(a % 2);
  }

  // ----- exclusive or with a fixed operand is injective -----

  lemma {:induction false} XorInjective(a: int, b: int, u: int, n: nat)
    requires 0 <= a < Pow2(n) && 0 <= b < Pow2(n)
    requires LowBits(Xor, a, u, n) == LowBits(Xor, b, u, n)
    ensures a == b
    decreases n
  {
    if n > 0 {
      var x, y := LowBits(Xor, a / 2, u / 2, n - 1), LowBits(Xor, b / 2, u / 2, n - 1);
      assert OnBits(Xor, a % 2, u % 2) + 2 * x == OnBits(Xor, b % 2, u % 2) + 2 * y;
      assert x == y && a % 2 == b % 2;
      XorInjective(a / 2, b / 2, u / 2, n - 1);
    }
  }

  lemma Uint32XorInjective(a: int, b: int, u: int)
    requires 0 <= a < TWO32 && 0 <= b < TWO32
    requires Uint32Op(Xor, a, u) == Uint32Op(Xor, b, u)
    ensures a == b
  {
    Pow2Of32();
    XorInjective(a, b, u, 32);
  }
}
