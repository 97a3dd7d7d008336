/** hashHasHexPrefix (crypto.go), and what it says about the hash as a number. */
module HexPrefix {
  import opened Arith
  import opened Base64
  import opened Numerals

  function ToLower(c: char): char {
    if 'A' <= c <= 'Z' then (c as int - 'A' as int + 'a' as int) as char else c
  }

  function ToLowerAll(s: string): (r: string)
    ensures |r| == |s|
  {
    seq(|s|, i requires 0 <= i < |s| => ToLower(s[i]))
  }

  predicate HashHasHexPrefix(hash: Bytes, target: string) {
    ToLowerAll(target) <= HexOf(hash)
  }

  // ----- the number a digit string starts with -----

  lemma {:induction false} ValueConcat(s: string, t: string)
    requires AllDigits(s, 16) && AllDigits(t, 16)
    ensures AllDigits(s + t, 16) && 0 <= Value(t, 16) < Pow(16, |t|)
    ensures Value(s + t, 16) == Value(s, 16) * Pow(16, |t|) + Value(t, 16)
    decreases |t|
  {
    if t == "" {
      assert s + t == s;
    } else {
      var front := t[..|t| - 1];
      ValueConcat(s, front);
      assert (s + t)[..|s + t| - 1] == s + front && (s + t)[|s + t| - 1] == t[|t| - 1];
      TimesSixteen(Value(s, 16), Pow(16, |t| - 1), Value(front, 16));
      assert Pow(16, |t|) == 16 * Pow(16, |t| - 1);
    }
  }

  lemma TimesSixteen(v: nat, p: nat, w: nat)
    ensures (v * p + w) * 16 == v * (16 * p) + w * 16
  {
  }

  /** v without its last n hex digits. */
  function Leading(v: nat, n: nat): nat {
    PowPositive(16, n);
    v / Pow(16, n)
  }

  lemma LeadingUnique(v: nat, n: nat, q: nat, r: nat)
    requires r < Pow(16, n) && v == q * Pow(16, n) + r
    ensures Leading(v, n) == q
  {
    DivModUnique(v, q, Pow(16, n), r);
  }

  /** The first digits are the value without its other digits. */
  lemma ValueOfPrefix(a: string, b: string)
    requires AllDigits(a, 16) && AllDigits(b, 16)
    ensures AllDigits(a + b, 16) && Leading(Value(a + b, 16), |b|) == Value(a, 16)
  {
    ValueConcat(a, b);
    LeadingUnique(Value(a + b, 16), |b|, Value(a, 16), Value(b, 16));
  }

  /** Digit strings of one length have equal values exactly when they are equal but for letter case. */
  lemma {:induction false} SameValueIff(s: string, t: string)
    requires |s| == |t| && AllDigits(s, 16) && AllDigits(t, 16)
    ensures Value(s, 16) == Value(t, 16) <==> ToLowerAll(s) == ToLowerAll(t)
  {
    if s != "" {
      var n := |s| - 1;
      SameValueIff(s[..n], t[..n]);
      SnocIff(ToLowerAll(s), ToLowerAll(t));
      assert ToLowerAll(s)[..n] == ToLowerAll(s[..n]) && ToLowerAll(t)[..n] == ToLowerAll(t[..n]);
      SameDigitIff(s[n], t[n]);
      QuotientAndDigit(Value(s[..n], 16), DigitValue(s[n]), Value(t[..n], 16), DigitValue(t[n]));
    } else {
      assert ToLowerAll(s) == ToLowerAll(t);
    }
  }

  lemma SnocIff(a: string, b: string)
    requires |a| == |b| > 0
    ensures a == b <==> a[..|a| - 1] == b[..|b| - 1] && a[|a| - 1] == b[|b| - 1]
  {
    assert a == a[..|a| - 1] + [a[|a| - 1]] && b == b[..|b| - 1] + [b[|b| - 1]];
  }

  lemma SameDigitIff(c: char, d: char)
    requires IsDigit(c, 16) && IsDigit(d, 16)
    ensures DigitValue(c) == DigitValue(d) <==> ToLower(c) == ToLower(d)
  {
  }

  lemma QuotientAndDigit(v: nat, c: nat, w: nat, d: nat)
    requires c < 16 && d < 16
    ensures v * 16 + c == w * 16 + d <==> v == w && c == d
  {
  }

  // ----- the hash as a number -----

  lemma {:induction false} HexSnoc(b: Bytes, x: byte)
    ensures HexOf(b + [x]) == HexOf(b) + [DigitChar(x / 16)] + [DigitChar(x % 16)]
  {
    if b == [] {
      assert [x][1..] == [];
    } else {
      assert (b + [x])[1..] == b[1..] + [x];
      HexSnoc(b[1..], x);
    }
  }

  lemma {:induction false} HexValue(b: Bytes)
    ensures AllDigits(HexOf(b), 16) && Value(HexOf(b), 16) == NatOf(b)
  {
    HexIsDigits(b);
    if b != [] {
      var front, x := b[..|b| - 1], b[|b| - 1];
      assert b == front + [x];
      HexSnoc(front, x);
      HexValue(front);
      TwoDigits(HexOf(front), DigitChar(x / 16), DigitChar(x % 16));
    }
  }

  lemma TwoDigits(s: string, c: char, d: char)
    requires AllDigits(s, 16) && IsDigit(c, 16) && IsDigit(d, 16)
    ensures AllDigits(s + [c] + [d], 16)
    ensures Value(s + [c] + [d], 16) == Value(s, 16) * 256 + DigitValue(c) * 16 + DigitValue(d)
  {
    var t := s + [c];
    assert t[..|t| - 1] == s && (t + [d])[..|t|] == t;
  }

  lemma HexIsLower(b: Bytes)
    ensures ToLowerAll(HexOf(b)) == HexOf(b)
  {
    forall i | 0 <= i < |HexOf(b)|
      ensures ToLower(HexOf(b)[i]) == HexOf(b)[i]
    {
      HexCharIsLower(b, i);
    }
  }

  lemma {:induction false} HexCharIsLower(b: Bytes, i: nat)
    requires i < |HexOf(b)|
    ensures '0' <= HexOf(b)[i] <= '9' || 'a' <= HexOf(b)[i] <= 'f'
    decreases |b|
  {
    if i >= 2 {
      HexCharIsLower(b[1..], i - 2);
    }
  }

  lemma LowerIsDigit(s: string)
    requires AllDigits(ToLowerAll(s), 16)
    ensures AllDigits(s, 16)
  {
    forall i | 0 <= i < |s|
      ensures IsDigit(s[i], 16)
    {
      assert IsDigit(ToLowerAll(s)[i], 16);
    }
  }

  /** A digit string in lower case, split after as many digits as the target has. */
  lemma SplitMeaning(a: string, b: string, target: string)
    requires AllDigits(a, 16) && AllDigits(b, 16) && ToLowerAll(a) == a && |a| == |target|
    ensures AllDigits(a + b, 16)
    ensures ToLowerAll(target) == a <==> AllDigits(target, 16) && Leading(Value(a + b, 16), |b|) == Value(target, 16)
  {
    ValueOfPrefix(a, b);
    if AllDigits(target, 16) {
      SameValueIff(a, target);
    } else if ToLowerAll(target) == a {
      LowerIsDigit(target);
    }
  }

  lemma PrefixIsFront(t: string, h: string)
    requires |t| <= |h|
    ensures t <= h <==> t == h[..|t|]
  {
  }

  /**
   * The target is a hex prefix of the hash, in either letter case, exactly when it is a digit string no longer
   * than the hash and the hash as a number, cut to as many digits, is the number it denotes.
   */
  lemma HexPrefixMeaning(hash: Bytes, target: string)
    ensures HashHasHexPrefix(hash, target) <==>
      && |target| <= 2 * |hash| && AllDigits(target, 16)
      && Leading(NatOf(hash), 2 * |hash| - |target|) == Value(target, 16)
  {
    var h, d := HexOf(hash), |target|;
    HexValue(hash);
    if d <= |h| {
      HexIsLower(hash);
      var a, b := h[..d], h[d..];
      assert h == a + b && ToLowerAll(a) == ToLowerAll(h)[..d];
      SplitMeaning(a, b, target);
      PrefixIsFront(ToLowerAll(target), h);
    }
  }

  /** A target of d zeros bounds the hash: the difficulty of a format-2 puzzle. */
  lemma ZeroPrefixIff(hash: Bytes, d: nat)
    requires d <= 2 * |hash|
    ensures HashHasHexPrefix(hash, Zeros(d)) <==> NatOf(hash) < Pow(16, 2 * |hash| - d)
  {
    var zeros, n := Zeros(d), 2 * |hash| - d;
    HexPrefixMeaning(hash, zeros);
    ZerosAreZero(d);
    LeadingIsZero(NatOf(hash), n);
    assert 2 * |hash| - |zeros| == n;
  }

  lemma ZerosAreZero(d: nat)
    ensures AllDigits(Zeros(d), 16) && Value(Zeros(d), 16) == 0
  {
    ValueOfPadded(d, "", 16);
    assert Zeros(d) + "" == Zeros(d);
  }

  lemma LeadingIsZero(v: nat, n: nat)
    ensures Leading(v, n) == 0 <==> v < Pow(16, n)
  {
    PowPositive(16, n);
    QuotientIsZero(v, Pow(16, n));
  }

  lemma QuotientIsZero(v: nat, p: int)
    requires p > 0
    ensures v / p == 0 <==> v < p
  {
    if v < p {
      DivModUnique(v, 0, p, v);
    } else {
      assert v == v / p * p + v % p;
    }
  }

  /** Letter case in the target does not matter. */
  lemma CaseDoesNotMatter(hash: Bytes, target: string)
    ensures HashHasHexPrefix(hash, target) <==> HashHasHexPrefix(hash, ToLowerAll(target))
  {
    assert ToLowerAll(ToLowerAll(target)) == ToLowerAll(target);
  }
}
