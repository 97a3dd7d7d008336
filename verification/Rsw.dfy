/**
 * The repeated-squaring time-lock puzzle (rsw.go). The holder of the factors p and q mints a puzzle
 * and its answer with exponents reduced modulo p - 1 and q - 1 and Chinese remaindering; a client
 * needs t squarings modulo N = p * q.
 */
module Rsw {
  import opened Arith
  import opened NumberTheory
  import opened Numerals

  datatype Keypair = Keypair(n: int, p: int, q: int, bits: int)

  function BitLen(n: nat): nat {
    if n == 0 then 0 else 1 + BitLen(n / 2)
  }

  /** RSWKeypair.Validate, with the probabilistic primality test read as primality. */
  predicate ValidKeypair(k: Keypair) {
    && k.bits >= 1024 && k.n >= 0 && BitLen(k.n) == k.bits
    && k.p != k.q && Prime(k.p) && Prime(k.q)
    && k.p * k.q == k.n
  }

  datatype Minter = Minter(
    n: int, iterations: nat, g: int, h: int,
    p: int, q: int, pm1: int, qm1: int, hp: nat, hq: nat, gp: nat, gq: nat, qInvP: nat)

  datatype Minted = Minted(n: int, x: int, expectedY: int, iterations: nat)

  /** big.Int.Exp for a positive modulus. */
  function ModExp(b: nat, e: nat, m: nat): (r: nat)
    requires m > 0
    ensures r < m
  {
    Pow(b, e) % m
  }

  /** big.Int.ModInverse: the least inverse of a modulo m, searched from k on. */
  function ModInverse(a: nat, m: nat, k: nat := 0): (r: Option<nat>)
    requires m > 1
    ensures r.Some? ==> a * r.value % m == 1
    ensures r.None? ==> forall x :: k <= x < m ==> a * x % m != 1
    decreases m - k
  {
    if k >= m then None else if a * k % m == 1 then Some(k) else ModInverse(a, m, k + 1)
  }

  function Crt(ap: int, aq: int, p: nat, q: nat, qInvP: nat): int
    requires p > 0
  {
    aq + q * ((ap - aq) % p * qInvP % p)
  }

  function NewMinter(k: Keypair, iterations: int, g: int): Option<Minter> {
    if !ValidKeypair(k) || iterations < 1 then None
    else
      var ep := ModExp(2, iterations, k.p - 1);
      var eq := ModExp(2, iterations, k.q - 1);
      var gp, gq := g % k.p, g % k.q;
      var hp, hq := ModExp(gp, ep, k.p), ModExp(gq, eq, k.q);
      match ModInverse(k.q % k.p, k.p)
      case None => None
      case Some(inv) =>
        Some(Minter(k.n, iterations, g, Crt(hp, hq, k.p, k.q, inv),
                    k.p, k.q, k.p - 1, k.q - 1, hp, hq, gp, gq, inv))
  }

  /** What NewMinter establishes and Mint relies on. */
  predicate ValidMinter(m: Minter) {
    && Prime(m.p) && Prime(m.q) && m.p != m.q && m.n == m.p * m.q
    && m.pm1 == m.p - 1 && m.qm1 == m.q - 1
    && m.iterations >= 1
    && m.gp == m.g % m.p && m.gq == m.g % m.q
    && m.hp == ModExp(m.gp, ModExp(2, m.iterations, m.pm1), m.p)
    && m.hq == ModExp(m.gq, ModExp(2, m.iterations, m.qm1), m.q)
    && m.q * m.qInvP % m.p == 1
    && m.h == Crt(m.hp, m.hq, m.p, m.q, m.qInvP)
  }

  /** r is the fresh 256-bit scalar. */
  function Mint(m: Minter, r: nat): Minted
    requires ValidMinter(m)
  {
    var rp, rq := r % m.pm1, r % m.qm1;
    Minted(m.n,
           Crt(ModExp(m.gp, rp, m.p), ModExp(m.gq, rq, m.q), m.p, m.q, m.qInvP),
           Crt(ModExp(m.hp, rp, m.p), ModExp(m.hq, rq, m.q), m.p, m.q, m.qInvP),
           m.iterations)
  }

  // ----- the minter exists for every valid keypair -----

  lemma InverseExists(a: nat, p: int)
    requires Prime(p) && a % p != 0
    ensures exists x :: 0 <= x < p && a * x % p == 1
  {
    var x := Pow(a, p - 2) % p;
    Fermat(p, a);
    assert Pow(a, p - 1) == a * Pow(a, p - 2);
    assert a * Pow(a, p - 2) == Pow(a, p - 2) * a && x * a == a * x;
    ModMulLeft(Pow(a, p - 2), a, p);
  }

  lemma {:induction false} ModInverseFound(a: nat, p: int)
    requires Prime(p) && a % p != 0
    ensures ModInverse(a, p).Some?
  {
    InverseExists(a, p);
    var x :| 0 <= x < p && a * x % p == 1;
  }

  /** NewRSWMinter never runs into its "invalid rsw factors" error. */
  lemma NewMinterSucceeds(k: Keypair, iterations: int, g: int)
    ensures NewMinter(k, iterations, g).Some? <==> ValidKeypair(k) && iterations >= 1
    ensures NewMinter(k, iterations, g).Some? ==>
              ValidMinter(NewMinter(k, iterations, g).value)
  {
    if ValidKeypair(k) && iterations >= 1 {
      DistinctPrimes(k.p, k.q);
      ModMod(k.q, k.p);
      ModInverseFound(k.q % k.p, k.p);
      ModMulLeft(k.q, ModInverse(k.q % k.p, k.p).value, k.p);
    }
  }

  // ----- Chinese remaindering -----

  lemma CrtDelta(d: int, p: int, q: int, inv: int)
    requires p > 0 && q * inv % p == 1
    ensures q * (d % p * inv % p) % p == d % p
  {
    var e := d % p * inv % p;
    assert q * e == e * q && (d % p * inv) * q == (q * inv) * (d % p);
    ModMulLeft(d % p * inv, q, p);
    MulByUnit(q * inv, d % p, p);
    ModMod(d, p);
  }

  lemma AddMod(a: int, b: int, c: int, m: int)
    requires m > 0 && b % m == c % m
    ensures (a + b) % m == (a + c) % m
  {
    ModDiff(b, c, m);
    ModDiff(a + b, a + c, m);
    assert a + b - (a + c) == b - c;
  }

  lemma CrtRange(aq: int, e: int, p: int, q: int)
    requires 0 <= aq < q && 0 <= e < p
    ensures 0 <= aq + q * e < p * q
  {
    assert q * e <= q * (p - 1);
    assert q * (p - 1) == p * q - q;
  }

  lemma CrtResidues(ap: int, aq: int, p: int, q: int, inv: nat)
    requires p > 1 && 0 <= ap && 0 <= aq < q && q * inv % p == 1
    ensures 0 <= Crt(ap, aq, p, q, inv) < p * q
    ensures Crt(ap, aq, p, q, inv) % p == ap % p
    ensures Crt(ap, aq, p, q, inv) % q == aq
  {
    var e := (ap - aq) % p * inv % p;
    CrtRange(aq, e, p, q);
    CrtDelta(ap - aq, p, q, inv);
    ModMod(ap - aq, p);
    AddMod(aq, q * e, ap - aq, p);
    assert q * e == e * q;
    ModShift(aq, e, q);
    DivModUnique(aq, 0, q, aq);
  }

  /** crt in its own steps: the one number below p * q with the two given residues. */
  method CrtInPlace(ap: nat, aq: nat, p: int, q: int, qInvP: nat) returns (r: int)
    requires Prime(p) && Prime(q) && p != q && aq < q && q * qInvP % p == 1
    ensures r == Crt(ap, aq, p, q, qInvP)
    ensures 0 <= r < p * q && r % p == ap % p && r % q == aq
    ensures forall s :: 0 <= s < p * q && s % p == ap % p && s % q == aq ==> s == r
  {
    var delta := ap - aq;
    delta := delta % p;
    delta := delta * qInvP;
    delta := delta % p;
    r := aq + q * delta;
    CrtResidues(ap, aq, p, q, qInvP);
    forall s | 0 <= s < p * q && s % p == ap % p && s % q == aq
      ensures s == r
    {
      SameResidues(p, q, s, r);
    }
  }

  lemma SameResidues(p: int, q: int, x: int, y: int)
    requires Prime(p) && Prime(q) && p != q
    requires 0 <= x < p * q && 0 <= y < p * q
    ensures x == y <==> x % p == y % p && x % q == y % q
  {
    CongruentModProduct(p, q, x, y);
    DivModUnique(x, 0, p * q, x);
    DivModUnique(y, 0, p * q, y);
  }

  // ----- one prime at a time -----

  /** The residues of the puzzle and the answer modulo one prime factor, as Mint computes them. */
  function SideX(p: int, g: int, r: nat): nat
    requires p >= 2
  {
    ModExp(g % p, r % (p - 1), p)
  }

  function SideY(p: int, g: int, t: nat, r: nat): nat
    requires p >= 2
  {
    ModExp(ModExp(g % p, ModExp(2, t, p - 1), p), r % (p - 1), p)
  }

  /** The one way reduced exponents can lose the answer modulo p. */
  predicate LosesAnswer(p: int, g: int, t: nat, r: nat)
    requires p >= 2
  {
    g % p == 0 && Pow(2, t) % (p - 1) == 0 && r % (p - 1) != 0
  }

  lemma {:induction false} SideUnit(p: int, g: int, t: nat, r: nat)
    requires Prime(p) && g % p != 0 && Pow(2, t) >= 0
    ensures SideX(p, g, r) == Pow(g, r) % p
    ensures SideY(p, g, t, r) == Pow(SideX(p, g, r), Pow(2, t)) % p
  {
    var a, e, f := g % p, Pow(2, t), ModExp(2, t, p - 1);
    ModMod(g, p);
    ReduceExponent(p, a, r);
    PowMod(g, r, p);
    ReduceExponent(p, a, e);
    var h := Pow(a, f) % p;
    assert h == Pow(a, e) % p;
    PowNotDivisible(p, a, f);
    ModMod(Pow(a, f), p);
    ReduceExponent(p, h, r);
    PowMod(Pow(a, e), r, p);
    PowPow(a, e, r);
    PowMod(Pow(a, r), e, p);
    PowPow(a, r, e);
    assert e * r == r * e;
  }

  /** Powers of 0 and 1, with 0^0 = 1 as in big.Int.Exp. */
  lemma ExpOfZero(e: nat, p: int)
    requires p > 1
    ensures ModExp(0, e, p) == if e == 0 then 1 else 0
    ensures ModExp(1, e, p) == 1
  {
    PowOfZero(e);
    PowOfOne(e);
    DivModUnique(1, 0, p, 1);
  }

  lemma {:induction false} SideZero(p: int, g: int, t: nat, r: nat)
    requires Prime(p) && g % p == 0 && Pow(2, t) > 0
    ensures SideX(p, g, r) == if r % (p - 1) == 0 then 1 else 0
    ensures SideY(p, g, t, r) == if r % (p - 1) == 0 || Pow(2, t) % (p - 1) == 0 then 1 else 0
    ensures Pow(SideX(p, g, r), Pow(2, t)) % p == SideX(p, g, r)
    ensures Pow(g, r) % p == if r == 0 then 1 else 0
  {
    var f, s := ModExp(2, t, p - 1), r % (p - 1);
    PowMod(g, r, p);
    ExpOfZero(r, p);
    ExpOfZero(s, p);
    ExpOfZero(f, p);
    ExpOfZero(Pow(2, t), p);
    assert SideX(p, g, r) == ModExp(0, s, p);
    assert SideY(p, g, t, r) == ModExp(ModExp(0, f, p), s, p);
  }

  lemma SideAgreesUnit(p: int, g: int, t: nat, r: nat)
    requires Prime(p) && g % p != 0 && Pow(2, t) >= 0
    ensures SideY(p, g, t, r) == Pow(SideX(p, g, r), Pow(2, t)) % p && !LosesAnswer(p, g, t, r)
    ensures SideX(p, g, r) == Pow(g, r) % p
  {
    SideUnit(p, g, t, r);
  }

  lemma SideAgreesZero(p: int, g: int, t: nat, r: nat)
    requires Prime(p) && g % p == 0 && Pow(2, t) > 0
    ensures SideY(p, g, t, r) == Pow(SideX(p, g, r), Pow(2, t)) % p <==> !LosesAnswer(p, g, t, r)
    ensures SideX(p, g, r) == Pow(g, r) % p <==> !(r > 0 && r % (p - 1) == 0)
  {
    SideZero(p, g, t, r);
    SideZeroDecides(r % (p - 1) == 0, Pow(2, t) % (p - 1) == 0, SideX(p, g, r), SideY(p, g, t, r));
  }

  lemma SideZeroDecides(whole: bool, all: bool, x: int, y: int)
    requires x == (if whole then 1 else 0) && y == (if whole || all then 1 else 0)
    ensures x == y <==> !(all && !whole)
  {
  }

  /** Modulo one prime, the minted answer is the client's answer exactly when it is not lost. */
  lemma SideAgrees(p: int, g: int, t: nat, r: nat)
    requires Prime(p)
    ensures Pow(2, t) > 0
    ensures SideY(p, g, t, r) == Pow(SideX(p, g, r), Pow(2, t)) % p <==> !LosesAnswer(p, g, t, r)
    ensures SideX(p, g, r) == Pow(g, r) % p <==> !(g % p == 0 && r > 0 && r % (p - 1) == 0)
  {
    PowPositive(2, t);
    if g % p != 0 {
      SideAgreesUnit(p, g, t, r);
    } else {
      SideAgreesZero(p, g, t, r);
    }
  }

  // ----- the whole puzzle -----

  /** What t sequential squarings compute. */
  function Squared(x: int, t: nat, n: int): int
    requires n > 0
  {
    PowPositive(2, t);
    Pow(x, Pow(2, t)) % n
  }

  lemma MintedResidues(m: Minter, r: nat)
    requires ValidMinter(m)
    ensures m.n > 0
    ensures var d := Mint(m, r);
      && 0 <= d.x < m.n && d.x % m.p == SideX(m.p, m.g, r) && d.x % m.q == SideX(m.q, m.g, r)
      && 0 <= d.expectedY < m.n
      && d.expectedY % m.p == SideY(m.p, m.g, m.iterations, r)
      && d.expectedY % m.q == SideY(m.q, m.g, m.iterations, r)
  {
    ProductPositive(m.p, m.q);
    CrtResidues(SideX(m.p, m.g, r), SideX(m.q, m.g, r), m.p, m.q, m.qInvP);
    CrtResidues(SideY(m.p, m.g, m.iterations, r), SideY(m.q, m.g, m.iterations, r), m.p, m.q, m.qInvP);
    ModMod(Pow(m.gp, r % m.pm1), m.p);
    ModMod(Pow(m.hp, r % m.pm1), m.p);
  }

  lemma {:induction false} SquaredResidue(p: int, q: int, x: int, t: nat)
    requires p > 0 && q > 0
    ensures p * q > 0 && Pow(2, t) > 0
    ensures Squared(x, t, p * q) % p == Pow(x % p, Pow(2, t)) % p
    ensures Squared(x, t, p * q) % q == Pow(x % q, Pow(2, t)) % q
  {
    PowPositive(2, t);
    ProductPositive(p, q);
    ModOfModProduct(p, q, Pow(x, Pow(2, t)));
    PowMod(x, Pow(2, t), p);
    PowMod(x, Pow(2, t), q);
  }

  /**
   * The trapdoor is exact: the minted answer is what t squarings of the minted puzzle give, unless
   * the generator shares a factor with N, that factor minus one divides 2^t, and r does not hide it.
   */
  lemma MintedAnswerIff(m: Minter, r: nat)
    requires ValidMinter(m)
    ensures m.n > 0
    ensures Mint(m, r).expectedY == Squared(Mint(m, r).x, m.iterations, m.n)
       <==> !LosesAnswer(m.p, m.g, m.iterations, r) && !LosesAnswer(m.q, m.g, m.iterations, r)
  {
    ProductPositive(m.p, m.q);
    var d, t := Mint(m, r), m.iterations;
    MintedResidues(m, r);
    SquaredResidue(m.p, m.q, d.x, t);
    SideAgrees(m.p, m.g, t, r);
    SideAgrees(m.q, m.g, t, r);
    SameResidues(m.p, m.q, d.expectedY, Squared(d.x, t, m.n));
  }

  /** The puzzle is g^r modulo N, unless g shares a factor with N and r reduces to 0 there. */
  lemma {:induction false} MintedPuzzleIff(m: Minter, r: nat)
    requires ValidMinter(m)
    ensures m.n > 0
    ensures Mint(m, r).x == Pow(m.g, r) % m.n
       <==> && !(m.g % m.p == 0 && r > 0 && r % (m.p - 1) == 0)
            && !(m.g % m.q == 0 && r > 0 && r % (m.q - 1) == 0)
  {
    ProductPositive(m.p, m.q);
    MintedResidues(m, r);
    SideAgrees(m.p, m.g, m.iterations, r);
    SideAgrees(m.q, m.g, m.iterations, r);
    ModOfModProduct(m.p, m.q, Pow(m.g, r));
    SameResidues(m.p, m.q, Mint(m, r).x, Pow(m.g, r) % m.n);
  }

  /** From a keypair to the client: the minter NewMinter builds is exact but for the lost answers. */
  lemma TrapdoorIsExactIff(k: Keypair, iterations: int, g: int, r: nat)
    requires ValidKeypair(k) && iterations >= 1
    ensures k.n > 0 && NewMinter(k, iterations, g).Some?
    ensures ValidMinter(NewMinter(k, iterations, g).value)
    ensures var d := Mint(NewMinter(k, iterations, g).value, r);
      d.expectedY == Squared(d.x, iterations, k.n) <==>
      !LosesAnswer(k.p, g, iterations, r) && !LosesAnswer(k.q, g, iterations, r)
  {
    NewMinterSucceeds(k, iterations, g);
    MintedAnswerIff(NewMinter(k, iterations, g).value, r);
  }

  /** For a generator coprime to N nothing is lost, whatever t and r are. */
  lemma {:induction false} CoprimeGeneratorIsExact(m: Minter, r: nat)
    requires ValidMinter(m) && m.g % m.p != 0 && m.g % m.q != 0
    ensures m.n > 0
    ensures Mint(m, r).x == Pow(m.g, r) % m.n
    ensures Mint(m, r).expectedY == Squared(Mint(m, r).x, m.iterations, m.n)
  {
    MintedAnswerIff(m, r);
    MintedPuzzleIff(m, r);
  }

  lemma SquareStep(x: int, y: int, i: nat, n: int)
    requires n > 0 && y == Squared(x, i, n)
    ensures y * y % n == Squared(x, i + 1, n)
  {
    PowPositive(2, i);
    var e := Pow(2, i);
    assert Pow(2, i + 1) == e + e;
    PowAdd(x, e, e);
    ModMul(Pow(x, e), Pow(x, e), n);
  }

  /** SolveRSW: the client's sequential work. */
  method SolveRsw(modulus: int, x: int, iterations: nat) returns (result: int)
    requires modulus > 0
    ensures result == Squared(x, iterations, modulus)
  {
    result := x % modulus;
    assert Pow(x, 1) == x * Pow(x, 0);
    var i := 0;
    while i < iterations
      invariant 0 <= i <= iterations
      invariant result == Squared(x, i, modulus)
    {
      SquareStep(x, result, i, modulus);
      result := result * result;
      result := result % modulus;
      i := i + 1;
    }
  }

  /** randomIntRange: the drawn bytes, reduced into [2, modulus - 2]. */
  function RandomIntRange(raw: nat, modulus: int): (v: int)
    requires modulus > 3
    ensures 2 <= v <= modulus - 2
  {
    raw % (modulus - 3) + 2
  }

  /**
   * The condition is needed: with 3 a factor of both N and the generator, every odd r loses the
   * answer, whatever t is.
   */
  lemma SharedFactorThreeLoses(m: Minter, r: nat)
    requires ValidMinter(m) && m.p == 3 && m.g % 3 == 0 && r % 2 == 1
    ensures m.n > 0
    ensures Mint(m, r).expectedY != Squared(Mint(m, r).x, m.iterations, m.n)
  {
    var t := m.iterations;
    assert Pow(2, t) == 2 * Pow(2, t - 1);
    DivModUnique(Pow(2, t), Pow(2, t - 1), 2, 0);
    MintedAnswerIff(m, r);
  }

  // ----- for which generators nothing is lost -----

  /** No draw loses the answer modulo p. */
  predicate NeverLosesAt(p: int, g: int, t: nat)
    requires p >= 2
  {
    p == 2 || g % p != 0 || Pow(2, t) % (p - 1) != 0
  }

  predicate NeverLoses(m: Minter)
    requires ValidMinter(m)
  {
    NeverLosesAt(m.p, m.g, m.iterations) && NeverLosesAt(m.q, m.g, m.iterations)
  }

  /** The minted answer is what t squarings of the minted puzzle give. */
  ghost predicate ExactFor(m: Minter, r: nat)
    requires ValidMinter(m)
  {
    MintedResidues(m, r);
    Mint(m, r).expectedY == Squared(Mint(m, r).x, m.iterations, m.n)
  }

  lemma NeverLosesAtIff(p: int, g: int, t: nat, r: nat)
    requires p >= 2
    ensures NeverLosesAt(p, g, t) ==> !LosesAnswer(p, g, t, r)
    ensures !NeverLosesAt(p, g, t) ==> LosesAnswer(p, g, t, 1)
  {
    assert r % 1 == 0;
    if p > 2 {
      DivModUnique(1, 0, p - 1, 1);
    }
  }

  /**
   * The condition a caller can check beforehand: a minter is exact for all draws if and only if neither
   * factor p has p > 2, p dividing the generator and p - 1 dividing 2^t.
   */
  lemma ExactForAllIff(m: Minter)
    requires ValidMinter(m)
    ensures (forall r: nat :: ExactFor(m, r)) <==> NeverLoses(m)
  {
    forall r: nat
      ensures ExactFor(m, r) <==> !LosesAnswer(m.p, m.g, m.iterations, r) && !LosesAnswer(m.q, m.g, m.iterations, r)
      ensures NeverLoses(m) ==> ExactFor(m, r)
    {
      MintedAnswerIff(m, r);
      NeverLosesAtIff(m.p, m.g, m.iterations, r);
      NeverLosesAtIff(m.q, m.g, m.iterations, r);
    }
    NeverLosesAtIff(m.p, m.g, m.iterations, 1);
    NeverLosesAtIff(m.q, m.g, m.iterations, 1);
    assert ExactFor(m, 1) ==> NeverLoses(m);
  }

  /** Only primes one above a power of two can lose the answer. */
  lemma LosingFactorIsSpecial(p: int, g: int, t: nat)
    requires p >= 2 && !NeverLosesAt(p, g, t)
    ensures exists j: nat :: 1 <= j <= t && p == Pow(2, j) + 1
  {
    DivisorOfPowerOfTwo(p - 1, t);
    var j: nat :| j <= t && p - 1 == Pow(2, j);
    assert j == 0 ==> p == 2;
  }

  // ----- a keypair that Validate accepts and that loses -----

  lemma {:induction false} BitLenAtLeast(n: nat, b: nat)
    requires n >= Pow(2, b)
    ensures BitLen(n) > b
  {
    PowPositive(2, b);
    if b > 0 {
      BitLenAtLeast(n / 2, b - 1);
    }
  }

  lemma ThreeIsPrime()
    ensures Prime(3)
  {
    forall d | 2 <= d < 3
      ensures 3 % d != 0
    {
      assert d == 2;
    }
  }

  /** Moduli with the factor 3 come in every size. */
  lemma ModulusWithThree(bits: nat) returns (k: Keypair)
    requires bits >= 2
    ensures k.p == 3 && k.q > 3 && Prime(3) && Prime(k.q) && k.n == 3 * k.q && k.bits == BitLen(k.n) > bits
  {
    PowPositive(2, bits);
    var q := PrimeAbove(Pow(2, bits) + 3);
    BitLenAtLeast(3 * q, bits);
    ThreeIsPrime();
    k := Keypair(3 * q, 3, q, BitLen(3 * q));
  }

  /**
   * The lost answers are real: for every t and every odd r there is a keypair that Validate accepts and a
   * generator in the range RandomIntRange draws from for which the minted answer is not the client's.
   */
  lemma LosingKeypairExists(iterations: int, r: nat)
    requires iterations >= 1 && r % 2 == 1
    ensures exists k: Keypair, g: int {:trigger NewMinter(k, iterations, g)} ::
              && ValidKeypair(k) && 2 <= g <= k.n - 2
              && NewMinter(k, iterations, g).Some? && ValidMinter(NewMinter(k, iterations, g).value)
              && !ExactFor(NewMinter(k, iterations, g).value, r)
  {
    var k := ModulusWithThree(1024);
    NewMinterSucceeds(k, iterations, 3);
    SharedFactorThreeLoses(NewMinter(k, iterations, 3).value, r);
  }
}
