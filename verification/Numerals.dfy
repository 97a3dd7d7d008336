/** Positional numerals: how integers are printed and read back by the Go and JavaScript code. */
module Numerals {
  import opened Arith

  datatype Option<+T> = None | Some(value: T) {
    function GetOr(default: T): T {
      if Some? then value else default
    }
  }

  lemma ConcatAssoc<T>(a: seq<T>, b: seq<T>, c: seq<T>)
    ensures (a + b) + c == a + (b + c)
  {
  }

  lemma PrependIff<T>(x: T, y: T, a: seq<T>, b: seq<T>)
    ensures [x] + a == [y] + b <==> x == y && a == b
  {
    assert ([x] + a)[0] == x && ([y] + b)[0] == y;
    assert ([x] + a)[1..] == a && ([y] + b)[1..] == b;
  }

  function DigitChar(d: nat): char
    requires d < 16
  {
    if d < 10 then ('0' as int + d) as char else ('a' as int + d - 10) as char
  }

  /** The value of a digit in either letter case, or -1 for any other character. */
  function DigitValue(c: char): int {
    if '0' <= c <= '9' then c as int - '0' as int
    else if 'a' <= c <= 'f' then c as int - 'a' as int + 10
    else if 'A' <= c <= 'F' then c as int - 'A' as int + 10
    else -1
  }

  predicate IsDigit(c: char, base: nat) {
    0 <= DigitValue(c) < base
  }

  predicate AllDigits(s: string, base: nat) {
    forall i :: 0 <= i < |s| ==> IsDigit(s[i], base)
  }

  lemma SplitQuotient(n: nat, base: nat)
    requires base >= 2
    ensures n == n / base * base + n % base
    ensures n >= base ==> 1 <= n / base < n
  {
    var q := n / base;
    assert n == base * q + n % base;
    if q >= n {
      assert base * q >= 2 * q;
    }
  }

  /** The shortest numeral of n: no leading zero, lower case, "0" for zero. */
  function Digits(n: nat, base: nat): (s: string)
    requires 2 <= base <= 16
    ensures s != "" && AllDigits(s, base)
    decreases n
  {
    if n < base then [DigitChar(n)]
    else
      SplitQuotient(n, base);
      Digits(n / base, base) + [DigitChar(n % base)]
  }

  function Value(s: string, base: nat): nat
    requires AllDigits(s, base)
  {
    if s == "" then 0 else Value(s[..|s| - 1], base) * base + DigitValue(s[|s| - 1])
  }

  lemma {:induction false} ValueOfDigits(n: nat, base: nat)
    requires 2 <= base <= 16
    ensures Value(Digits(n, base), base) == n
    decreases n
  {
    if n >= base {
      SplitQuotient(n, base);
      ValueOfDigits(n / base, base);
      assert Digits(n, base)[..|Digits(n, base)| - 1] == Digits(n / base, base);
    }
  }

  function Zeros(n: nat): (s: string)
    ensures |s| == n
  {
    seq(n, _ => '0')
  }

  lemma {:induction false} ValueOfPadded(k: nat, s: string, base: nat)
    requires base >= 1 && AllDigits(s, base)
    ensures AllDigits(Zeros(k) + s, base) && Value(Zeros(k) + s, base) == Value(s, base)
    decreases k + |s|
  {
    if s != "" {
      ValueOfPadded(k, s[..|s| - 1], base);
      assert (Zeros(k) + s)[..|Zeros(k) + s| - 1] == Zeros(k) + s[..|s| - 1];
    } else if k > 0 {
      ValueOfPadded(k - 1, s, base);
      assert (Zeros(k) + s)[..k - 1] == Zeros(k - 1) + s;
    }
  }

  // ----- spelling: which digit strings denote the same number -----

  function Lower(c: char): char {
    if 'A' <= c <= 'F' then (c as int - 'A' as int + 'a' as int) as char else c
  }

  function LowerAll(s: string): (r: string)
    ensures |r| == |s|
  {
    seq(|s|, i requires 0 <= i < |s| => Lower(s[i]))
  }

  function StripZeros(s: string): string {
    if |s| > 1 && s[0] == '0' then StripZeros(s[1..]) else s
  }

  /** A digit string in lower case and without leading zeros. */
  function Canonical(s: string): string {
    StripZeros(LowerAll(s))
  }

  lemma {:induction false} StripZerosSnoc(s: string, c: char)
    requires s != ""
    ensures StripZeros(s + [c]) == if StripZeros(s) == "0" then [c] else StripZeros(s) + [c]
  {
    if s[0] == '0' {
      assert (s + [c])[1..] == s[1..] + [c];
      if |s| > 1 {
        StripZerosSnoc(s[1..], c);
      }
    }
  }

  lemma {:induction false} ValueSnoc(s: string, base: nat)
    requires base >= 1 && s != "" && AllDigits(s, base)
    ensures Value(s, base) / base == Value(s[..|s| - 1], base)
    ensures Value(s, base) % base == DigitValue(s[|s| - 1])
  {
    DivModUnique(Value(s, base), Value(s[..|s| - 1], base), base, DigitValue(s[|s| - 1]));
  }

  /** Printing the value of a digit string gives back its canonical spelling. */
  lemma {:induction false} DigitsOfValue(s: string, base: nat)
    requires 2 <= base <= 16 && s != "" && AllDigits(s, base)
    ensures Digits(Value(s, base), base) == Canonical(s)
    decreases |s|
  {
    var t, c := s[..|s| - 1], s[|s| - 1];
    ValueSnoc(s, base);
    if t == "" {
      assert LowerAll(s) == [Lower(c)];
      DigitsSnoc(Value(s, base), base);
      assert Value(t, base) == 0 && Digits(0, base) == "0";
    } else {
      DigitsOfValue(t, base);
      assert LowerAll(s) == LowerAll(t) + [Lower(c)];
      StripZerosSnoc(LowerAll(t), Lower(c));
      DigitsSnoc(Value(s, base), base);
    }
  }

  lemma {:induction false} DigitsSnoc(n: nat, base: nat)
    requires 2 <= base <= 16
    ensures Digits(n, base) ==
            if Digits(n / base, base) == "0" then [DigitChar(n % base)]
            else Digits(n / base, base) + [DigitChar(n % base)]
  {
    QuotientZero(n, base);
    DigitsZero(n / base, base);
  }

  lemma QuotientZero(n: nat, base: nat)
    requires base >= 1
    ensures n / base == 0 <==> n < base
    ensures n < base ==> n % base == n
  {
    if n < base {
      DivModUnique(n, 0, base, n);
    }
  }

  lemma {:induction false} DigitsZero(v: nat, base: nat)
    requires 2 <= base <= 16
    ensures Digits(v, base) == "0" <==> v == 0
  {
    ValueOfDigits(v, base);
    assert Value("0", base) == 0 by { assert "0"[..0] == ""; }
  }

  // ----- decimal -----

  /** strconv.FormatInt(n, 10), fmt.Sprint(n) and JavaScript's String(n) on integers. */
  function Decimal(n: int): string {
    if n < 0 then "-" + Digits(-n, 10) else Digits(n, 10)
  }

  /** The longest prefix of decimal digits. */
  function DigitPrefix(s: string): (n: nat)
    ensures n <= |s| && AllDigits(s[..n], 10)
    ensures n < |s| ==> !IsDigit(s[n], 10)
  {
    if s == "" || !IsDigit(s[0], 10) then 0
    else
      var n := DigitPrefix(s[1..]);
      assert s[..n + 1] == [s[0]] + s[1..][..n];
      n + 1
  }

  /** JavaScript's parseInt on text without leading white space; None stands for NaN. */
  function ParseInt(s: string): Option<int> {
    var neg := s != "" && s[0] == '-';
    var body := if neg then s[1..] else s;
    var n := DigitPrefix(body);
    if n == 0 then None
    else if neg then Some(0 - Value(body[..n], 10) as int)
    else Some(Value(body[..n], 10))
  }

  lemma {:induction false} ParseIntOfDecimal(n: int)
    ensures ParseInt(Decimal(n)) == Some(n)
  {
    var m: nat := if n < 0 then -n else n;
    ValueOfDigits(m, 10);
    var d := Digits(m, 10);
    assert DigitPrefix(d) == |d|;
    assert d[..|d|] == d;
    assert IsDigit(d[0], 10);
    if n < 0 {
      assert Decimal(n)[1..] == d;
    }
  }
}
