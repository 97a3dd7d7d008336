/** How RSW numbers travel: zero-padded hex out, lenient hex back in, fixed-width byte comparison. */
module RswWire {
  import opened Numerals

  function PaddedHex(v: nat, byteLength: nat): string {
    var d := Digits(v, 16);
    if |d| < 2 * byteLength then Zeros(2 * byteLength - |d|) + d else d
  }

  /** unicode.IsSpace. */
  predicate IsSpace(c: char) {
    var n := c as int;
    || 9 <= n <= 13 || n == 0x20 || n == 0x85 || n == 0xA0 || n == 0x1680
    || 0x2000 <= n <= 0x200A || n == 0x2028 || n == 0x2029 || n == 0x202F || n == 0x205F || n == 0x3000
  }

  function TrimLeft(s: string): string {
    if s != "" && IsSpace(s[0]) then TrimLeft(s[1..]) else s
  }

  function TrimRight(s: string): string {
    if s != "" && IsSpace(s[|s| - 1]) then TrimRight(s[..|s| - 1]) else s
  }

  function TrimPrefix(s: string, prefix: string): string {
    if prefix <= s then s[|prefix|..] else s
  }

  /** The part of a claimed answer that must be hex digits. */
  function HexBody(s: string): string {
    TrimPrefix(TrimPrefix(TrimRight(TrimLeft(s)), "0x"), "0X")
  }

  function ParseHexInt(s: string): Option<nat> {
    var body := HexBody(s);
    if body == "" || !AllDigits(body, 16) then None else Some(Value(body, 16))
  }

  lemma DigitsHaveNoSpace(s: string)
    requires s != "" && AllDigits(s, 16)
    ensures HexBody(s) == s
  {
    assert IsDigit(s[0], 16) && IsDigit(s[|s| - 1], 16);
    assert !IsSpace(s[0]) && !IsSpace(s[|s| - 1]);
    if |s| > 1 {
      assert IsDigit(s[1], 16);
    }
  }

  /** Printing and parsing are inverse, at any padding. */
  lemma ParseOfPaddedHex(v: nat, byteLength: nat)
    ensures ParseHexInt(PaddedHex(v, byteLength)) == Some(v)
  {
    var d := Digits(v, 16);
    ValueOfDigits(v, 16);
    if |d| < 2 * byteLength {
      ValueOfPadded(2 * byteLength - |d|, d, 16);
    }
    DigitsHaveNoSpace(PaddedHex(v, byteLength));
  }

  // ----- big-endian bytes -----

  /** big.Int.FillBytes: the n low-order bytes of v, most significant first. */
  function BigEndian(v: nat, n: nat): (b: seq<int>)
    ensures |b| == n
  {
    if n == 0 then [] else BigEndian(v / 256, n - 1) + [v % 256]
  }

  /** len(v.Bytes()). */
  function ByteLength(v: nat): nat {
    if v == 0 then 0 else 1 + ByteLength(v / 256)
  }

  lemma {:induction false} BigEndianInjective(v: nat, w: nat, n: nat)
    requires ByteLength(v) <= n && ByteLength(w) <= n
    ensures BigEndian(v, n) == BigEndian(w, n) <==> v == w
  {
    if n > 0 {
      BigEndianInjective(v / 256, w / 256, n - 1);
      var bv, bw := BigEndian(v, n), BigEndian(w, n);
      if bv == bw {
        assert bv[..n - 1] == BigEndian(v / 256, n - 1) && bw[..n - 1] == BigEndian(w / 256, n - 1);
        assert bv[n - 1] == v % 256 && bw[n - 1] == w % 256;
      }
    }
  }

  /** The bytes FillBytes leaves in buf. */
  method FillBytes(v: nat, buf: array<int>)
    modifies buf
    ensures buf[..] == BigEndian(v, buf.Length)
  {
    var rest: nat := v;
    var i := buf.Length;
    assert buf[i..] == [];
    while i > 0
      invariant 0 <= i <= buf.Length
      invariant BigEndian(rest, i) + buf[i..] == BigEndian(v, buf.Length)
    {
      i := i - 1;
      ghost var tail := buf[i + 1..];
      buf[i] := rest % 256;
      assert buf[i..] == [rest % 256] + tail;
      assert BigEndian(rest, i + 1) + tail == BigEndian(rest / 256, i) + ([rest % 256] + tail);
      rest := rest / 256;
    }
    assert buf[0..] == buf[..];
    assert BigEndian(rest, 0) + buf[0..] == buf[..];
  }

  /** VerifyRSW: None is a nil pointer. Equality of the fixed-width encodings is equality of the numbers. */
  method VerifyRsw(expected: Option<int>, claimed: Option<int>) returns (ok: bool)
    ensures ok <==> expected.Some? && claimed.Some? && expected.value == claimed.value >= 0
  {
    if expected.None? || claimed.None? || expected.value < 0 || claimed.value < 0 {
      return false;
    }
    var length := ByteLength(expected.value);
    var l := ByteLength(claimed.value);
    if l > length {
      length := l;
    }
    if length == 0 {
      length := 1;
    }
    var want := new int[length];
    FillBytes(expected.value, want);
    var got := new int[length];
    FillBytes(claimed.value, got);
    BigEndianInjective(expected.value, claimed.value, length);
    return want[..] == got[..];
  }

  method VerifyRswHex(expectedHex: string, claimedHex: string) returns (ok: bool)
    ensures ok <==> AcceptsHex(expectedHex, claimedHex)
  {
    var want := ParseHexInt(expectedHex);
    if want.None? {
      return false;
    }
    var got := ParseHexInt(claimedHex);
    if got.None? {
      return false;
    }
    ok := VerifyRsw(Some(want.value), Some(got.value));
  }

  predicate AcceptsHex(expectedHex: string, claimedHex: string) {
    ParseHexInt(expectedHex).Some? && ParseHexInt(claimedHex) == ParseHexInt(expectedHex)
  }

  /**
   * The expected-answer channel is exact. Against a printed answer, the accepted strings are those
   * that parse to that very number: its digits in either letter case, with any number of leading
   * zeros, "0x" and "0X" prefixes and surrounding white space.
   */
  lemma {:induction false} AcceptedSpellings(v: nat, byteLength: nat, claimed: string)
    ensures AcceptsHex(PaddedHex(v, byteLength), claimed) <==> ParseHexInt(claimed) == Some(v)
    ensures AcceptsHex(PaddedHex(v, byteLength), claimed)
       <==> HexBody(claimed) != "" && AllDigits(HexBody(claimed), 16) && Canonical(HexBody(claimed)) == Digits(v, 16)
  {
    ParseOfPaddedHex(v, byteLength);
    var body := HexBody(claimed);
    if body != "" && AllDigits(body, 16) {
      DigitsOfValue(body, 16);
      ValueOfDigits(v, 16);
      ValueOfDigits(Value(body, 16), 16);
    }
  }

  /** A prefix and any zero padding are tolerated. */
  lemma {:induction false} PrefixedSpelling(v: nat, k: nat)
    ensures ParseHexInt("0x" + (Zeros(k) + Digits(v, 16))) == Some(v)
  {
    ValueOfDigits(v, 16);
    ValueOfPadded(k, Digits(v, 16), 16);
    PrefixIsDropped(Zeros(k) + Digits(v, 16));
  }

  lemma PrefixIsDropped(d: string)
    requires d != "" && AllDigits(d, 16)
    ensures HexBody("0x" + d) == d
  {
    var a := "0x" + d;
    DigitsHaveNoSpace(d);
    assert IsDigit(d[|d| - 1], 16) && a[|a| - 1] == d[|d| - 1] && a[0] == '0';
    assert TrimRight(TrimLeft(a)) == a;
    assert a[2..] == d;
  }

  /** The solver's own spelling, big.Int.Text(16), is accepted for the right number and no other. */
  lemma {:induction false} SolverSpelling(v: nat, w: nat, byteLength: nat)
    ensures AcceptsHex(PaddedHex(v, byteLength), Digits(w, 16)) <==> v == w
  {
    ParseOfPaddedHex(v, byteLength);
    DigitsHaveNoSpace(Digits(w, 16));
    ValueOfDigits(w, 16);
  }
}
