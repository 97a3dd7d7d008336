/** Deterministic salts and targets (prng.go): UTF-16 FNV-1a feeding xorshift32. */
module Prng {
  import opened Arith
  import opened Int32
  import opened Numerals
  import opened RswWire
  import opened Unicode

  const FNV_OFFSET := 2166136261
  const FNV_PRIME := 16777619

  // ----- FNV-1a -----

  /** h ^= unit; h *= 16777619 in uint32. */
  function FnvStep(h: int, unit: int): (r: int)
    ensures 0 <= r < TWO32
  {
    Uint32Op(Xor, h, unit) * FNV_PRIME % TWO32
  }

  function FnvUnits(state: int, units: seq<int>): int
    decreases |units|
  {
    if units == [] then state else FnvStep(FnvUnits(state, units[..|units| - 1]), units[|units| - 1])
  }

  function FnvResume(state: int, input: seq<Rune>): int {
    FnvUnits(state, Utf16(input))
  }

  method Fnv1a32Resume(state: int, input: seq<Rune>) returns (h: int)
    ensures h == FnvResume(state, input)
  {
    h := state;
    var units := Utf16(input);
    for i := 0 to |units|
      invariant h == FnvUnits(state, units[..i])
    {
      h := Uint32Op(Xor, h, units[i]);
      h := h * FNV_PRIME % TWO32;
      assert units[..i + 1][..i] == units[..i];
    }
    assert units[..|units|] == units;
  }

  lemma {:induction false} FnvUnitsConcat(state: int, s: seq<int>, t: seq<int>)
    ensures FnvUnits(state, s + t) == FnvUnits(FnvUnits(state, s), t)
  {
    if t == [] {
      assert s + t == s;
    } else {
      FnvUnitsConcat(state, s, t[..|t| - 1]);
      assert (s + t)[..|s + t| - 1] == s + t[..|t| - 1];
    }
  }

  /** Resuming from a hash is hashing the longer string. */
  lemma FnvResumeConcat(state: int, s: seq<Rune>, t: seq<Rune>)
    ensures FnvResume(state, s + t) == FnvResume(FnvResume(state, s), t)
  {
    Utf16Concat(s, t);
    FnvUnitsConcat(state, Utf16(s), Utf16(t));
  }

  // ----- the hash loses nothing of its state -----

  lemma OddMultiplierInjective(x: int, y: int)
    requires 0 <= x < TWO32 && 0 <= y < TWO32
    requires x * FNV_PRIME % TWO32 == y * FNV_PRIME % TWO32
    ensures x == y
  {
    var inverse := 899433627; // FNV_PRIME * inverse == 3513497 * 2^32 + 1
    OddInverse(x, inverse);
    OddInverse(y, inverse);
  }

  lemma OddInverse(x: int, inverse: int)
    requires 0 <= x < TWO32 && inverse == 899433627
    ensures (x * FNV_PRIME % TWO32) * inverse % TWO32 == x
  {
    ModMulLeft(x * FNV_PRIME, inverse, TWO32);
    assert x * FNV_PRIME * inverse == x + (x * ((FNV_PRIME * inverse - 1) / TWO32)) * TWO32;
    ModShift(x, x * ((FNV_PRIME * inverse - 1) / TWO32), TWO32);
    DivModUnique(x, 0, TWO32, x);
  }

  lemma FnvStepInjective(g: int, h: int, unit: int)
    requires 0 <= g < TWO32 && 0 <= h < TWO32 && FnvStep(g, unit) == FnvStep(h, unit)
    ensures g == h
  {
    Uint32OpRange(Xor, g, unit);
    Uint32OpRange(Xor, h, unit);
    OddMultiplierInjective(Uint32Op(Xor, g, unit), Uint32Op(Xor, h, unit));
    Uint32XorInjective(g, h, unit);
  }

  lemma {:induction false} FnvRange(state: int, units: seq<int>)
    requires 0 <= state < TWO32
    ensures 0 <= FnvUnits(state, units) < TWO32
  {
  }

  /** Two states never merge, whatever input follows. */
  lemma {:induction false} FnvInjective(g: int, h: int, units: seq<int>)
    requires 0 <= g < TWO32 && 0 <= h < TWO32 && FnvUnits(g, units) == FnvUnits(h, units)
    ensures g == h
  {
    if units != [] {
      var front := units[..|units| - 1];
      FnvRange(g, front);
      FnvRange(h, front);
      FnvStepInjective(FnvUnits(g, front), FnvUnits(h, front), units[|units| - 1]);
      FnvInjective(g, h, front);
    }
  }

  // ----- the same hash as the emitted script writes it -----

  /** (x<<1)+(x<<4)+(x<<7)+(x<<8)+(x<<24) */
  function ShiftsOf(x: int): int {
    ToInt32(x * 0x2) + ToInt32(x * 0x10) + ToInt32(x * 0x80) + ToInt32(x * 0x100) + ToInt32(x * 0x100_0000)
  }

  /** `h^=c; h=(h+(h<<1)+(h<<4)+(h<<7)+(h<<8)+(h<<24))>>>0`, every << giving an int32. */
  function JsFnvStep(h: int, unit: int): int {
    var x := Int32Op(Xor, h, unit);
    ToUint32(x + ShiftsOf(x))
  }

  lemma JsStepAgrees(h: int, unit: int)
    ensures JsFnvStep(h, unit) == FnvStep(h, unit)
  {
    var u := Uint32Op(Xor, h, unit);
    var x := Int32Op(Xor, h, unit);
    SumOfShifts(x);
    ToInt32Identity(u);
    ModMulLeft(u, FNV_PRIME, TWO32);
    ModMulLeft(x, FNV_PRIME, TWO32);
  }

  lemma SumOfShifts(x: int)
    ensures (x + ShiftsOf(x)) % TWO32 == x * FNV_PRIME % TWO32
  {
    var k := x / 1;
    ToInt32Offset(x * 0x2);
    ToInt32Offset(x * 0x10);
    ToInt32Offset(x * 0x80);
    ToInt32Offset(x * 0x100);
    ToInt32Offset(x * 0x100_0000);
    var q := Wraps(x * 0x2) + Wraps(x * 0x10) + Wraps(x * 0x80) + Wraps(x * 0x100) + Wraps(x * 0x100_0000);
    ModShift(x * FNV_PRIME, -q, TWO32);
  }

  /** How many multiples of 2^32 ToInt32 takes off. */
  function Wraps(n: int): int {
    (n - ToInt32(n)) / TWO32
  }

  lemma ToInt32Offset(n: int)
    ensures ToInt32(n) == n - Wraps(n) * TWO32
  {
    var u := n % TWO32;
    assert n == (n / TWO32) * TWO32 + u;
    if u >= TWO31 {
      DivModUnique(n - ToInt32(n), n / TWO32 + 1, TWO32, 0);
    } else {
      DivModUnique(n - ToInt32(n), n / TWO32, TWO32, 0);
    }
  }

  function JsHash(state: int, units: seq<int>): int {
    if units == [] then state else JsFnvStep(JsHash(state, units[..|units| - 1]), units[|units| - 1])
  }

  /** The browser and the server hash every string alike, so the marker lists match. */
  lemma {:induction false} JsHashAgrees(state: int, units: seq<int>)
    ensures JsHash(state, units) == FnvUnits(state, units)
  {
    if units != [] {
      JsHashAgrees(state, units[..|units| - 1]);
      JsStepAgrees(FnvUnits(state, units[..|units| - 1]), units[|units| - 1]);
    }
  }

  // ----- xorshift32 -----

  function Left13(s: bv32): bv32 {
    s ^ (s << 13)
  }

  function Left5(s: bv32): bv32 {
    s ^ (s << 5)
  }

  function Right17(s: bv32): bv32 {
    s ^ (s >> 17)
  }

  /** state ^= state << 13; state ^= state >> 17; state ^= state << 5 */
  function XorShift(s: bv32): bv32 {
    Left5(Right17(Left13(s)))
  }

  lemma Left5Injective(b: bv32, d: bv32)
    requires Left5(b) == Left5(d)
    ensures b == d
  {
  }

  lemma Left13Injective(b: bv32, d: bv32)
    requires Left13(b) == Left13(d)
    ensures b == d
  {
  }

  lemma ShiftXor(p: bv32, q: bv32)
    ensures (p ^ q) >> 17 == (p >> 17) ^ (q >> 17)
    ensures (p >> 17) >> 17 == 0
    ensures (p ^ q) ^ q == p
  {
  }

  /** The middle step undoes itself, because 17 + 17 bits leave nothing. */
  lemma Right17Twice(b: bv32)
    ensures Right17(Right17(b)) == b
  {
    ShiftXor(b, b >> 17);
    assert (b ^ (b >> 17)) >> 17 == b >> 17;
  }

  lemma XorShiftInjective(s: bv32, t: bv32)
    requires XorShift(s) == XorShift(t)
    ensures s == t
  {
    var a, c := Left13(s), Left13(t);
    Left5Injective(Right17(a), Right17(c));
    Right17Twice(a);
    Right17Twice(c);
    Left13Injective(s, t);
  }

  function UnLeft5(s: bv32): bv32 {
    s ^ (s << 5) ^ (s << 10) ^ (s << 15) ^ (s << 20) ^ (s << 25) ^ (s << 30)
  }

  /** Shifting the sum by five leaves all of it but s. */
  lemma Left5OfSum(s: bv32)
    ensures Left5(s ^ (s << 5) ^ (s << 10) ^ (s << 15) ^ (s << 20) ^ (s << 25) ^ (s << 30)) == s
  {
  }

  lemma Left5Undone(s: bv32)
    ensures Left5(UnLeft5(s)) == s
  {
    Left5OfSum(s);
  }

  function UnLeft13(s: bv32): bv32 {
    s ^ (s << 13) ^ (s << 26)
  }

  lemma Left13OfSum(s: bv32)
    ensures Left13(s ^ (s << 13) ^ (s << 26)) == s
  {
  }

  lemma Left13Undone(s: bv32)
    ensures Left13(UnLeft13(s)) == s
  {
    Left13OfSum(s);
  }

  /** The state before a round. */
  function UnXorShift(s: bv32): bv32 {
    UnLeft13(Right17(UnLeft5(s)))
  }

  /** The round is a bijection: every state has exactly one state before it. */
  lemma XorShiftBijective(s: bv32, t: bv32)
    ensures XorShift(s) == t <==> s == UnXorShift(t)
  {
    var a, b := UnLeft5(t), Right17(UnLeft5(t));
    Left5Undone(t);
    Right17Twice(a);
    Left13Undone(b);
    assert XorShift(UnXorShift(t)) == t;
    if XorShift(s) == t {
      XorShiftInjective(s, UnXorShift(t));
    }
  }

  function Iterate(s: bv32, n: nat): bv32 {
    if n == 0 then s else XorShift(Iterate(s, n - 1))
  }

  /** Rounds are a permutation of the states, so the stream never falls into the all-zero state. */
  lemma {:induction false} IterateInjective(s: bv32, t: bv32, n: nat)
    requires Iterate(s, n) == Iterate(t, n)
    ensures s == t
  {
    if n > 0 {
      XorShiftInjective(Iterate(s, n - 1), Iterate(t, n - 1));
      IterateInjective(s, t, n - 1);
    }
  }

  lemma {:induction false} ZeroStays(n: nat)
    ensures Iterate(0, n) == 0
  {
    if n > 0 {
      ZeroStays(n - 1);
    }
  }

  lemma {:induction false} NonzeroStays(s: bv32, n: nat)
    ensures Iterate(s, n) == 0 <==> s == 0
  {
    ZeroStays(n);
    if Iterate(s, n) == 0 {
      IterateInjective(s, 0, n);
    }
  }

  // ----- the output text -----

  lemma Pow16()
    ensures Pow(16, 8) == TWO32
  {
    assert Pow(16, 4) == 0x1_0000 by { assert Pow(16, 2) == 256; PowAdd(16, 2, 2); }
    PowAdd(16, 4, 4);
  }

  /** fmt "%08x" */
  function Hex8(s: bv32): (h: string)
    ensures |h| == 8 && IsLowerHex(h)
  {
    Pow16();
    PaddedHexShape(s as int, 4);
    PaddedHex(s as int, 4)
  }

  predicate IsLowerHex(s: string) {
    forall i :: 0 <= i < |s| ==> '0' <= s[i] <= '9' || 'a' <= s[i] <= 'f'
  }

  lemma {:induction false} DigitsShape(v: nat, n: nat)
    requires n >= 1 && v < Pow(16, n)
    ensures |Digits(v, 16)| <= n && IsLowerHex(Digits(v, 16))
  {
    if v >= 16 {
      assert n > 1 by { assert Pow(16, 1) == 16 * Pow(16, 0) == 16; }
      assert v / 16 < Pow(16, n - 1);
      DigitsShape(v / 16, n - 1);
    }
  }

  lemma {:induction false} PaddedHexShape(v: nat, bytes: nat)
    requires bytes >= 1 && v < Pow(16, 2 * bytes)
    ensures |PaddedHex(v, bytes)| == 2 * bytes && IsLowerHex(PaddedHex(v, bytes))
  {
    DigitsShape(v, 2 * bytes);
  }

  /** The output stream, block by block. */
  function Blocks(s: bv32, n: nat): (h: string)
    ensures |h| == 8 * n && IsLowerHex(h)
  {
    if n == 0 then "" else Blocks(s, n - 1) + Hex8(Iterate(s, n))
  }

  lemma {:induction false} BlocksPrefix(s: bv32, m: nat, n: nat)
    requires m <= n
    ensures Blocks(s, m) <= Blocks(s, n)
  {
    if m < n {
      BlocksPrefix(s, m, n - 1);
    }
  }

  /** The first `length` characters of the stream. */
  function FromHash(state: bv32, length: nat): string {
    Blocks(state, length / 8 + 1)[..length]
  }

  lemma {:induction false} CutBlocks(state: bv32, n: nat, length: nat)
    requires length <= 8 * n && n <= length / 8 + 1
    ensures Blocks(state, n)[..length] == FromHash(state, length)
  {
    BlocksPrefix(state, n, length / 8 + 1);
  }

  /** prngFromHash: whole blocks until the text is long enough, then cut. */
  method PrngFromHash(hash: bv32, length: nat) returns (out: string)
    ensures out == FromHash(hash, length)
    ensures |out| == length && IsLowerHex(out)
  {
    var state := hash;
    out := "";
    ghost var n := 0;
    while |out| < length
      invariant out == Blocks(hash, n) && state == Iterate(hash, n)
      invariant n == 0 || 8 * (n - 1) < length
      decreases length - |out|
    {
      state := XorShift(state);
      out := out + Hex8(state);
      n := n + 1;
      assert |out| == 8 * n;
    }
    CutBlocks(hash, n, length);
    out := out[..length];
  }

  /** A shorter request is a prefix of a longer one from the same state. */
  lemma ShorterIsPrefix(state: bv32, m: nat, n: nat)
    requires m <= n
    ensures FromHash(state, m) == FromHash(state, n)[..m]
  {
    BlocksPrefix(state, m / 8 + 1, n / 8 + 1);
  }

  lemma Hex8Zero(s: bv32)
    ensures Hex8(s) == Zeros(8) <==> s == 0
  {
    ParseOfPaddedHex(s as int, 4);
    ParseOfPaddedHex(0, 4);
    assert PaddedHex(0, 4) == Zeros(8) by { assert Digits(0, 16) == "0"; }
    assert s as int == 0 <==> s == 0;
  }

  // ----- PRNG and the pairs of format 1 -----

  /** The hash as a machine word, bit by bit. */
  function HashState(h: nat): bv32 {
    if h == 0 then 0
    else if h % 2 == 0 then HashState(h / 2) << 1
    else (HashState(h / 2) << 1) | 1
  }

  lemma FitsIn31Bits(s: bv32)
    requires s as int < 0x8000_0000
    ensures s <= 0x7FFF_FFFF
  {
  }

  lemma ShiftDoubles(x: bv32)
    requires x <= 0x7FFF_FFFF
    ensures (x << 1) as int == 2 * (x as int)
  {
  }

  lemma ShiftAndOne(x: bv32)
    requires x <= 0x7FFF_FFFF
    ensures ((x << 1) | 1) as int == 2 * (x as int) + 1
  {
  }

  lemma EvenWord(x: bv32, h: nat)
    requires h < TWO32 && x as int == h / 2 && h % 2 == 0
    ensures (x << 1) as int == h
  {
    FitsIn31Bits(x);
    ShiftDoubles(x);
  }

  lemma OddWord(x: bv32, h: nat)
    requires h < TWO32 && x as int == h / 2 && h % 2 == 1
    ensures ((x << 1) | 1) as int == h
  {
    FitsIn31Bits(x);
    ShiftAndOne(x);
  }

  /** No bit of the hash is lost: the word is the hash. */
  lemma {:induction false} HashStateValue(h: nat)
    requires h < TWO32
    ensures HashState(h) as int == h
  {
    if h == 0 {
    } else if h % 2 == 0 {
      HashStateValue(h / 2);
      EvenWord(HashState(h / 2), h);
    } else {
      HashStateValue(h / 2);
      OddWord(HashState(h / 2), h);
    }
  }

  lemma ZeroWord(s: bv32)
    ensures s as int == 0 <==> s == 0
  {
  }

  /** From a nonzero hash no whole block of the stream is zero; from hash 0 all of them are. */
  lemma BlockIsZeroIff(h: nat, n: nat)
    requires h < TWO32
    ensures Blocks(HashState(h), n + 1)[8 * n..] == Zeros(8) <==> h == 0
  {
    var state := HashState(h);
    HashStateValue(h);
    ZeroWord(state);
    assert Blocks(state, n + 1)[8 * n..] == Hex8(Iterate(state, n + 1));
    Hex8Zero(Iterate(state, n + 1));
    NonzeroStays(state, n + 1);
  }

  lemma Hex8Injective(s: bv32, t: bv32)
    requires Hex8(s) == Hex8(t)
    ensures s == t
  {
    ParseOfPaddedHex(s as int, 4);
    ParseOfPaddedHex(t as int, 4);
    SameValueSameWord(s, t);
  }

  lemma WordOfValue(s: bv32)
    ensures (s as int) as bv32 == s
  {
  }

  lemma SameValueSameWord(s: bv32, t: bv32)
    requires s as int == t as int
    ensures s == t
  {
    WordOfValue(s);
    WordOfValue(t);
  }

  lemma {:induction false} OneBlock(state: bv32, one: nat)
    requires one == 1
    ensures Blocks(state, one) == Hex8(XorShift(state))
  {
    assert Blocks(state, one - 1) == "";
    assert Iterate(state, one - 1) == state && Iterate(state, one) == XorShift(Iterate(state, one - 1));
  }

  lemma FirstBlock(state: bv32, length: nat)
    requires length >= 8
    ensures FromHash(state, length)[..8] == Blocks(state, 1)
  {
    BlocksPrefix(state, 1, length / 8 + 1);
    PrefixOfCut(Blocks(state, 1), Blocks(state, length / 8 + 1), length);
  }

  lemma PrefixOfCut(a: string, b: string, n: nat)
    requires a <= b && |a| <= n <= |b|
    ensures b[..n][..|a|] == a
  {
  }

  /** An output of at least one block tells the hash it came from: only equal hashes give equal texts. */
  lemma PrngTellsHash(a: seq<Rune>, b: seq<Rune>, length: nat)
    requires length >= 8
    ensures Prng(a, length) == Prng(b, length) <==> FnvResume(FNV_OFFSET, a) == FnvResume(FNV_OFFSET, b)
  {
    FnvRange(FNV_OFFSET, Utf16(a));
    FnvRange(FNV_OFFSET, Utf16(b));
    var g, h := FnvResume(FNV_OFFSET, a), FnvResume(FNV_OFFSET, b);
    if Prng(a, length) == Prng(b, length) {
      FirstBlock(HashState(g), length);
      FirstBlock(HashState(h), length);
      OneBlock(HashState(g), 1);
      OneBlock(HashState(h), 1);
      Hex8Injective(XorShift(HashState(g)), XorShift(HashState(h)));
      XorShiftInjective(HashState(g), HashState(h));
      HashStateValue(g);
      HashStateValue(h);
    }
  }

  function Prng(seed: seq<Rune>, length: nat): string {
    FnvRange(FNV_OFFSET, Utf16(seed));
    FromHash(HashState(FnvResume(FNV_OFFSET, seed)), length)
  }

  /** fmt.Sprint(index) as runes */
  function Runes(s: string): (r: seq<Rune>)
    ensures |r| == |s|
  {
    seq(|s|, i requires 0 <= i < |s| => s[i] as int)
  }

  /**
   * format1Pair hashes the token once per index and resumes; that is the widget's own derivation of
   * salt and target from the concatenated seeds.
   */
  method Format1Pair(token: seq<Rune>, index: nat, size: nat, difficulty: nat) returns (salt: string, target: string)
    ensures salt == Prng(token + Runes(Decimal(index)), size) && |salt| == size && IsLowerHex(salt)
    ensures target == Prng(token + Runes(Decimal(index)) + Runes("d"), difficulty)
    ensures |target| == difficulty && IsLowerHex(target)
  {
    var tokenState := Fnv1a32Resume(FNV_OFFSET, token);
    var saltState := Fnv1a32Resume(tokenState, Runes(Decimal(index)));
    var targetState := Fnv1a32Resume(saltState, Runes("d"));
    FnvResumeConcat(FNV_OFFSET, token, Runes(Decimal(index)));
    FnvResumeConcat(FNV_OFFSET, token + Runes(Decimal(index)), Runes("d"));
    FnvRange(FNV_OFFSET, Utf16(token + Runes(Decimal(index))));
    FnvRange(FNV_OFFSET, Utf16(token + Runes(Decimal(index)) + Runes("d")));
    salt := PrngFromHash(HashState(saltState), size);
    target := PrngFromHash(HashState(targetState), difficulty);
  }
}
