/** Primes: Euclid's lemma, Fermat's little theorem and the Chinese remainder theorem. */
module NumberTheory {
  import opened Arith

  predicate Prime(p: int) {
    p >= 2 && forall d :: 2 <= d < p ==> p % d != 0
  }

  // ----- Euclid's lemma -----

  lemma {:induction false} EuclidSmall(p: int, a: int, b: int)
    requires Prime(p) && 0 < a < p && a * b % p == 0
    ensures b % p == 0
    decreases a
  {
    if a > 1 {
      var q, r := p / a, p % a;
      assert p == q * a + r && 0 < r < a;
      assert r * b % p == 0 by {
        assert r * b == p * b - q * (a * b);
        assert a * b == (a * b / p) * p;
        assert q * (a * b) == (q * (a * b / p)) * p;
        assert r * b == 0 + (b - q * (a * b / p)) * p;
        ModShift(0, b - q * (a * b / p), p);
      }
      EuclidSmall(p, r, b);
    }
  }

  lemma Euclid(p: int, a: int, b: int)
    requires Prime(p) && a * b % p == 0
    ensures a % p == 0 || b % p == 0
  {
    if a % p != 0 {
      ModMulLeft(a, b, p);
      EuclidSmall(p, a % p, b);
    }
  }

  lemma Cancel(p: int, a: int, x: int, y: int)
    requires Prime(p) && a % p != 0 && a * x % p == a * y % p
    ensures x % p == y % p
  {
    ModDiff(a * x, a * y, p);
    assert a * x - a * y == a * (x - y);
    Euclid(p, a, x - y);
    ModDiff(x, y, p);
  }

  lemma {:induction false} PowNotDivisible(p: int, a: int, e: nat)
    requires Prime(p) && a % p != 0
    ensures Pow(a, e) % p != 0
  {
    if e > 0 {
      PowNotDivisible(p, a, e - 1);
      if Pow(a, e) % p == 0 {
        Euclid(p, a, Pow(a, e - 1));
      }
    }
  }

  // ----- Fermat's little theorem, by permuting the nonzero residues -----

  ghost function Pick<T>(s: set<T>): (x: T)
    requires |s| != 0
    ensures x in s
  {
    var x :| x in s;
    x
  }

  ghost function Product(s: set<int>): int {
    if |s| == 0 then 1 else Pick(s) * Product(s - {Pick(s)})
  }

  lemma MulSwap(x: int, y: int, z: int)
    ensures y * (x * z) == x * (y * z)
  {
  }

  lemma {:induction false} ProductRemove(s: set<int>, x: int)
    requires x in s
    ensures Product(s) == x * Product(s - {x})
    decreases |s|
  {
    var y := Pick(s);
    if y != x {
      ProductRemove(s - {y}, x);
      ProductRemove(s - {x}, y);
      assert s - {y} - {x} == s - {x} - {y};
      MulSwap(x, y, Product(s - {x} - {y}));
    }
  }

  lemma {:induction false} ProductNotDivisible(p: int, s: set<int>)
    requires Prime(p) && forall x :: x in s ==> x % p != 0
    ensures Product(s) % p != 0
    decreases |s|
  {
    if |s| != 0 {
      var x := Pick(s);
      ProductRemove(s, x);
      ProductNotDivisible(p, s - {x});
      if Product(s) % p == 0 {
        Euclid(p, x, Product(s - {x}));
      }
    }
  }

  /** The residues of the multiples of a. */
  ghost function Scaled(a: int, s: set<int>, p: int): set<int>
    requires p > 0
  {
    set x | x in s :: a * x % p
  }

  lemma ScaledRemove(a: int, s: set<int>, p: int, x: int)
    requires Prime(p) && a % p != 0 && x in s && forall y :: y in s ==> 0 < y < p
    ensures a * x % p in Scaled(a, s, p)
    ensures Scaled(a, s, p) - {a * x % p} == Scaled(a, s - {x}, p)
    ensures a * x % p !in Scaled(a, s - {x}, p)
  {
    forall y | y in s - {x}
      ensures a * y % p != a * x % p
    {
      if a * y % p == a * x % p {
        Cancel(p, a, x, y);
        DivModUnique(x, 0, p, x);
        DivModUnique(y, 0, p, y);
      }
    }
    var t := s - {x};
    assert s == t + {x};
  }

  lemma ScaleStep(a: int, x: int, u: int, c: int, f: int, p: int)
    requires p > 0 && u % p == c * f % p
    ensures (a * x % p) * u % p == (a * c) * (x * f) % p
  {
    ModMulLeft(a * x, u, p);
    ModMul(a * x, u, p);
    ModMul(a * x, c * f, p);
    assert (a * x) * (c * f) == (a * c) * (x * f);
  }

  lemma {:induction false} ScaledProduct(a: int, s: set<int>, p: int)
    requires Prime(p) && a % p != 0 && forall x :: x in s ==> 0 < x < p
    ensures |Scaled(a, s, p)| == |s|
    ensures Product(Scaled(a, s, p)) % p == Pow(a, |s|) * Product(s) % p
    decreases |s|
  {
    if |s| == 0 {
      assert Scaled(a, s, p) == {};
    } else {
      var x := Pick(s);
      var rest := s - {x};
      ScaledProduct(a, rest, p);
      ScaledRemove(a, s, p, x);
      ProductRemove(Scaled(a, s, p), a * x % p);
      ScaleStep(a, x, Product(Scaled(a, rest, p)), Pow(a, |rest|), Product(rest), p);
    }
  }

  /** The numbers 1, ..., n. */
  ghost function UpTo(n: nat): (s: set<int>)
    ensures forall x :: x in s <==> 1 <= x <= n
    ensures |s| == n
  {
    if n == 0 then {} else UpTo(n - 1) + {n as int}
  }

  lemma {:induction false} SubsetSameSize<T>(a: set<T>, b: set<T>)
    requires a <= b && |a| == |b|
    ensures a == b
  {
    assert |b - a| == |b| - |a| by { assert b == a + (b - a); }
  }

  lemma ResidueNonzero(p: int, x: int)
    requires 0 < x < p
    ensures x % p != 0
  {
    DivModUnique(x, 0, p, x);
  }

  lemma {:induction false} ScaledResidues(p: int, a: int)
    requires Prime(p) && a % p != 0
    ensures Scaled(a, UpTo(p - 1), p) == UpTo(p - 1)
  {
    var s := UpTo(p - 1);
    ScaledProduct(a, s, p);
    forall x | x in s
      ensures a * x % p in s
    {
      ResidueNonzero(p, x);
      if a * x % p == 0 {
        Euclid(p, a, x);
      }
    }
    SubsetSameSize(Scaled(a, s, p), s);
  }

  lemma ScaledResiduesProduct(p: int, a: int, n: nat, f: int)
    requires Prime(p) && a % p != 0 && n == p - 1 && f == Product(UpTo(n))
    ensures f % p == Pow(a, n) * f % p
  {
    ScaledResidues(p, a);
    SelfScaled(p, a, UpTo(n), n, f);
  }

  /** A set of residues that scaling by a maps to itself. */
  lemma SelfScaled(p: int, a: int, s: set<int>, n: nat, f: int)
    requires Prime(p) && a % p != 0 && forall x :: x in s ==> 0 < x < p
    requires Scaled(a, s, p) == s && |s| == n && Product(s) == f
    ensures f % p == Pow(a, n) * f % p
  {
    ScaledProduct(a, s, p);
  }

  lemma {:induction false} ResiduesProductNonzero(p: int)
    requires Prime(p)
    ensures Product(UpTo(p - 1)) % p != 0
  {
    forall x | x in UpTo(p - 1) ensures x % p != 0 { ResidueNonzero(p, x); }
    ProductNotDivisible(p, UpTo(p - 1));
  }

  lemma Fermat(p: int, a: int)
    requires Prime(p) && a % p != 0
    ensures Pow(a, p - 1) % p == 1
  {
    var f := Product(UpTo(p - 1));
    ScaledResiduesProduct(p, a, p - 1, f);
    ResiduesProductNonzero(p);
    CancelToOne(p, f, Pow(a, p - 1));
  }

  lemma CancelToOne(p: int, f: int, x: int)
    requires Prime(p) && f % p != 0 && f % p == x * f % p
    ensures x % p == 1
  {
    assert x * f == f * x && f == f * 1;
    Cancel(p, f, x, 1);
    DivModUnique(1, 0, p, 1);
  }

  lemma FermatMultiple(p: int, a: int, q: nat)
    requires Prime(p) && a % p != 0
    ensures Pow(Pow(a, p - 1), q) % p == 1
  {
    Fermat(p, a);
    PowMod(Pow(a, p - 1), q, p);
    PowOfOne(q);
    DivModUnique(1, 0, p, 1);
  }

  /** Away from multiples of p, an exponent only matters modulo p - 1. */
  lemma {:induction false} ReduceExponent(p: int, a: int, e: nat)
    requires Prime(p) && a % p != 0
    ensures Pow(a, e % (p - 1)) % p == Pow(a, e) % p
  {
    FermatMultiple(p, a, e / (p - 1));
    ReduceByOrder(p, a, e, p - 1);
  }

  lemma {:induction false} ReduceByOrder(p: int, a: int, e: nat, m: nat)
    requires p > 0 && m > 0 && Pow(Pow(a, m), e / m) % p == 1
    ensures Pow(a, e % m) % p == Pow(a, e) % p
  {
    SplitPow(a, e, m);
    UnitFactor(Pow(a, e), Pow(Pow(a, m), e / m), Pow(a, e % m), p);
  }

  lemma UnitFactor(x: int, u: int, w: int, p: int)
    requires p > 0 && x == u * w && u % p == 1
    ensures w % p == x % p
  {
    MulByUnit(u, w, p);
  }

  lemma MulByUnit(u: int, w: int, p: int)
    requires p > 0 && u % p == 1
    ensures u * w % p == w % p
  {
    ModMulLeft(u, w, p);
  }

  lemma {:induction false} SplitPow(a: int, e: nat, m: nat)
    requires m > 0
    ensures Pow(a, e) == Pow(Pow(a, m), e / m) * Pow(a, e % m)
  {
    var q, r := e / m, e % m;
    assert e == m * q + r && m * q >= 0;
    PowAdd(a, m * q, r);
    PowPow(a, m, q);
  }

  lemma {:induction false} PowOfZero(e: nat)
    ensures Pow(0, e) == if e == 0 then 1 else 0
  {
  }

  // ----- Chinese remainders -----

  lemma DivisibleByBoth(p: int, q: int, n: int)
    requires Prime(p) && Prime(q) && p != q && n % p == 0 && n % q == 0
    ensures n % (p * q) == 0
  {
    var k := n / q;
    assert n == q * k;
    assert q % p != 0 by { DistinctPrimes(p, q); }
    Euclid(p, q, k);
    var j := k / p;
    assert k == p * j;
    assert q * (p * j) == j * (p * q);
    assert p * q > 0;
    DivModUnique(n, j, p * q, 0);
  }

  lemma DistinctPrimes(p: int, q: int)
    requires Prime(p) && Prime(q) && p != q
    ensures q % p != 0
  {
    if p > q {
      DivModUnique(q, 0, p, q);
    }
  }

  lemma ProductPositive(p: int, q: int)
    requires p > 0 && q > 0
    ensures p * q > 0
  {
  }

  lemma DividesProduct(p: int, q: int, n: int)
    requires p > 0 && q > 0 && p * q > 0 && n % (p * q) == 0
    ensures n % p == 0 && n % q == 0
  {
    var k := n / (p * q);
    assert n == (p * q) * k;
    assert (p * q) * k == (q * k) * p && (p * q) * k == (p * k) * q;
    DivModUnique(n, q * k, p, 0);
    DivModUnique(n, p * k, q, 0);
  }

  /** Uniqueness of Chinese remainders. */
  lemma CongruentModProduct(p: int, q: int, x: int, y: int)
    requires Prime(p) && Prime(q) && p != q
    ensures p * q > 0
    ensures x % (p * q) == y % (p * q) <==> x % p == y % p && x % q == y % q
  {
    ProductPositive(p, q);
    ModDiff(x, y, p);
    ModDiff(x, y, q);
    ModDiff(x, y, p * q);
    var n := x - y;
    if n % p == 0 && n % q == 0 {
      DivisibleByBoth(p, q, n);
    } else if n % (p * q) == 0 {
      DividesProduct(p, q, n);
    }
  }

  lemma ModOfModProduct(p: int, q: int, x: int)
    requires p > 0 && q > 0
    ensures p * q > 0
    ensures x % (p * q) % p == x % p && x % (p * q) % q == x % q
  {
    assert p * q > 0;
    var k := x / (p * q);
    assert x == (p * q) * k + x % (p * q);
    assert (p * q) * k == (q * k) * p && (p * q) * k == (p * k) * q;
    ModShift(x % (p * q), q * k, p);
    ModShift(x % (p * q), p * k, q);
  }

  // ----- primes above every bound -----

  /** Some prime divides n. */
  lemma {:induction false} PrimeDivisor(n: nat, d: nat) returns (p: nat)
    requires 2 <= d <= n && forall e :: 2 <= e < d ==> n % e != 0
    ensures Prime(p) && n % p == 0
    decreases n - d
  {
    if n % d == 0 {
      forall e | 2 <= e < d
        ensures d % e != 0
      {
        if d % e == 0 {
          DividesThrough(n, d, e);
        }
      }
      p := d;
    } else {
      DivModUnique(n, 1, n, 0);
      p := PrimeDivisor(n, d + 1);
    }
  }

  lemma DividesThrough(n: nat, d: nat, e: nat)
    requires d > 0 && e > 0 && n % d == 0 && d % e == 0
    ensures n % e == 0
  {
    var a, b := n / d, d / e;
    assert n == a * d && d == b * e;
    assert a * (b * e) == (a * b) * e;
    DivModUnique(n, a * b, e, 0);
  }

  function Factorial(n: nat): nat {
    if n == 0 then 1 else n * Factorial(n - 1)
  }

  lemma {:induction false} DividesFactorial(n: nat, d: nat)
    requires 1 <= d <= n
    ensures Factorial(n) >= 1 && Factorial(n) % d == 0
  {
    if n == 1 {
      assert Factorial(1) == 1 * Factorial(0);
    } else {
      if d < n {
        DividesFactorial(n - 1, d);
        var k := Factorial(n - 1) / d;
        assert n * (k * d) == (n * k) * d;
        DivModUnique(Factorial(n), n * k, d, 0);
      } else {
        DividesFactorial(n - 1, 1);
        DivModUnique(Factorial(n), Factorial(n - 1), d, 0);
      }
      assert n * Factorial(n - 1) >= 1;
    }
  }

  /** Euclid: there is a prime above every n. */
  lemma PrimeAbove(n: nat) returns (q: nat)
    requires n >= 1
    ensures Prime(q) && q > n
  {
    DividesFactorial(n, 1);
    var f := Factorial(n) + 1;
    q := PrimeDivisor(f, 2);
    if q <= n {
      DividesFactorial(n, q);
      ModDiff(f, Factorial(n), q);
      DivModUnique(1, 0, q, 1);
    }
  }

  // ----- powers of two -----

  /** The divisors of a power of two are the powers of two. */
  lemma {:induction false} DivisorOfPowerOfTwo(d: nat, t: nat)
    requires d >= 1 && Pow(2, t) % d == 0
    ensures exists j: nat :: j <= t && d == Pow(2, j)
  {
    if d == 1 {
      assert d == Pow(2, 0);
    } else if t == 0 {
      DivModUnique(1, 0, d, 1);
      assert false;
    } else {
      PowPositive(2, t - 1);
      if d % 2 == 0 {
        HalveEven(d / 2, Pow(2, t - 1));
        DivisorOfPowerOfTwo(d / 2, t - 1);
        var j: nat :| j <= t - 1 && d / 2 == Pow(2, j);
        assert d == Pow(2, j + 1);
      } else {
        HalveOdd(d / 2, Pow(2, t - 1));
        DivisorOfPowerOfTwo(d, t - 1);
        var j: nat :| j <= t - 1 && d == Pow(2, j);
      }
    }
  }

  lemma HalveEven(c: nat, x: nat)
    requires c >= 1 && 2 * x % (2 * c) == 0
    ensures x % c == 0
  {
    var d := 2 * c;
    var k := 2 * x / d;
    assert 2 * x == k * d + 2 * x % d;
    TwiceInside(k, c);
    DivModUnique(x, k, c, 0);
  }

  lemma TwiceInside(k: nat, c: nat)
    ensures k * (2 * c) == 2 * (k * c)
  {
  }

  lemma HalveOdd(c: nat, x: nat)
    requires 2 * x % (2 * c + 1) == 0
    ensures x % (2 * c + 1) == 0
  {
    var k := 2 * x / (2 * c + 1);
    assert 2 * x == (2 * c + 1) * k;
    assert (2 * c + 1) * k == 2 * (k * c) + k;
    var j := k / 2;
    assert k == 2 * j;
    assert (2 * c + 1) * (2 * j) == 2 * (j * (2 * c + 1));
    DivModUnique(x, j, 2 * c + 1, 0);
  }
}
