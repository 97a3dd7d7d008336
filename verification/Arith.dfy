/** Integer division, remainders and powers. */
module Arith {

  /** Quotient and remainder are determined by the defining equation. */
  lemma DivModUnique(n: int, q: int, d: int, r: int)
    requires d > 0 && 0 <= r < d && n == q * d + r
    ensures n / d == q && n % d == r
  {
    var k := n / d - q;
    assert k * d == r - n % d by {
      assert n == d * (n / d) + n % d;
      assert k * d == (n / d) * d - q * d;
    }
    SmallMultiple(k, d);
  }

  lemma SmallMultiple(k: int, d: int)
    requires d > 0 && -d < k * d < d
    ensures k == 0
  {
  }

  lemma ModShift(n: int, k: int, d: int)
    requires d > 0
    ensures (n + k * d) % d == n % d
  {
    assert n == (n / d) * d + n % d;
    assert n + k * d == (n / d + k) * d + n % d;
    DivModUnique(n + k * d, n / d + k, d, n % d);
  }

  lemma ModMod(n: int, d: int)
    requires d > 0
    ensures n % d % d == n % d
  {
    DivModUnique(n % d, 0, d, n % d);
  }

  lemma ModMulLeft(a: int, b: int, d: int)
    requires d > 0
    ensures (a % d) * b % d == a * b % d
  {
    assert a == (a / d) * d + a % d;
    assert a * b == (a % d) * b + (a / d * b) * d;
    ModShift((a % d) * b, a / d * b, d);
  }

  lemma ModMul(a: int, b: int, d: int)
    requires d > 0
    ensures (a % d) * (b % d) % d == a * b % d
  {
    ModMulLeft(a, b % d, d);
    assert a * (b % d) == (b % d) * a && b * a == a * b;
    ModMulLeft(b, a, d);
  }

  /** Congruent numbers differ by a multiple. */
  lemma ModDiff(a: int, b: int, d: int)
    requires d > 0
    ensures a % d == b % d <==> (a - b) % d == 0
  {
    assert a == (a / d) * d + a % d;
    assert b == (b / d) * d + b % d;
    var k := a / d - b / d;
    assert a - b == (a % d - b % d) + k * d;
    ModShift(a % d - b % d, k, d);
    var e := a % d - b % d;
    if e < 0 {
      DivModUnique(e, -1, d, e + d);
    } else {
      DivModUnique(e, 0, d, e);
    }
  }

  function Pow(b: int, e: nat): int {
    if e == 0 then 1 else b * Pow(b, e - 1)
  }

  lemma {:induction false} PowAdd(b: int, x: nat, y: nat)
    ensures Pow(b, x + y) == Pow(b, x) * Pow(b, y)
  {
    if x > 0 {
      PowAdd(b, x - 1, y);
      assert b * (Pow(b, x - 1) * Pow(b, y)) == b * Pow(b, x - 1) * Pow(b, y);
    }
  }

  lemma {:induction false} PowPow(b: int, x: nat, y: nat)
    ensures Pow(Pow(b, x), y) == Pow(b, x * y)
  {
    if y == 0 {
      assert x * y == 0;
    } else {
      PowPow(b, x, y - 1);
      assert x * y == x + x * (y - 1) && x * (y - 1) >= 0;
      PowAdd(b, x, x * (y - 1));
    }
  }

  lemma {:induction false} PowOfOne(e: nat)
    ensures Pow(1, e) == 1
  {
    if e > 0 {
      PowOfOne(e - 1);
    }
  }

  lemma {:induction false} PowPositive(b: int, e: nat)
    requires b > 0
    ensures Pow(b, e) > 0
  {
    if e > 0 {
      PowPositive(b, e - 1);
      assert b * Pow(b, e - 1) > 0;
    }
  }

  /** 2^n, known to be positive. */
  function Pow2(n: nat): (p: int)
    ensures p >= 1
  {
    PowPositive(2, n);
    Pow(2, n)
  }

  lemma {:induction false} PowMod(b: int, e: nat, d: int)
    requires d > 0
    ensures Pow(b % d, e) % d == Pow(b, e) % d
  {
    if e > 0 {
      PowMod(b, e - 1, d);
      ModMul(b % d, Pow(b % d, e - 1), d);
      ModMod(b, d);
      ModMul(b, Pow(b, e - 1), d);
    }
  }
}
