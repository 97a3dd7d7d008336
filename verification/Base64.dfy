/** base64.RawURLEncoding (section 5 of RFC 4648 without padding), with the decoder's tolerances. */
module Base64 {
  import opened Numerals

  type byte = n: int | 0 <= n < 256
  type Bytes = seq<byte>

  function Char(v: int): char
    requires 0 <= v < 64
  {
    if v < 26 then ('A' as int + v) as char
    else if v < 52 then ('a' as int + v - 26) as char
    else if v < 62 then ('0' as int + v - 52) as char
    else if v == 62 then '-' else '_'
  }

  function SixBits(c: char): (v: int)
    ensures -1 <= v < 64
  {
    if 'A' <= c <= 'Z' then c as int - 'A' as int
    else if 'a' <= c <= 'z' then c as int - 'a' as int + 26
    else if '0' <= c <= '9' then c as int - '0' as int + 52
    else if c == '-' then 62
    else if c == '_' then 63
    else -1
  }

  function Encode(b: Bytes): string {
    if |b| == 0 then ""
    else if |b| == 1 then [Char(b[0] / 4), Char(b[0] % 4 * 16)]
    else if |b| == 2 then [Char(b[0] / 4), Char(b[0] % 4 * 16 + b[1] / 16), Char(b[1] % 16 * 4)]
    else [Char(b[0] / 4), Char(b[0] % 4 * 16 + b[1] / 16), Char(b[1] % 16 * 4 + b[2] / 64),
          Char(b[2] % 64)] + Encode(b[3..])
  }

  /** Line breaks are skipped wherever they stand. */
  function DropBreaks(s: string): string {
    if s == "" then ""
    else if s[0] == '\n' || s[0] == '\r' then DropBreaks(s[1..])
    else [s[0]] + DropBreaks(s[1..])
  }

  /** The unused low bits of a final short group are ignored, as the non-strict decoder does. */
  function DecodeGroups(s: string): Option<Bytes> {
    if |s| == 0 then Some([])
    else if |s| == 1 then None
    else
      var a, b := SixBits(s[0]), SixBits(s[1]);
      if a < 0 || b < 0 then None
      else if |s| == 2 then Some([a * 4 + b / 16])
      else
        var c := SixBits(s[2]);
        if c < 0 then None
        else if |s| == 3 then Some([a * 4 + b / 16, b % 16 * 16 + c / 4])
        else
          var d := SixBits(s[3]);
          if d < 0 then None
          else
            match DecodeGroups(s[4..])
            case None => None
            case Some(rest) => Some([a * 4 + b / 16, b % 16 * 16 + c / 4, c % 4 * 64 + d] + rest)
  }

  function Decode(s: string): Option<Bytes> {
    DecodeGroups(DropBreaks(s))
  }

  /** Characters of the alphabet: none of '.', '=' or a line break. */
  predicate Plain(s: string) {
    forall i :: 0 <= i < |s| ==> SixBits(s[i]) >= 0
  }

  lemma {:induction false} EncodeIsPlain(b: Bytes)
    ensures Plain(Encode(b)) && (b != [] ==> Encode(b) != "")
  {
    if |b| >= 3 {
      EncodeIsPlain(b[3..]);
    }
  }

  lemma {:induction false} PlainHasNoBreaks(s: string)
    requires Plain(s)
    ensures DropBreaks(s) == s
  {
    if s != "" {
      assert SixBits(s[0]) >= 0;
      PlainHasNoBreaks(s[1..]);
    }
  }

  /** The four characters of one group carry its three bytes; shorter groups are padded with zeros. */
  lemma GroupBits(x: byte, y: byte, z: byte)
    ensures var a, b, c, d := x / 4, x % 4 * 16 + y / 16, y % 16 * 4 + z / 64, z % 64;
      && a < 64 && b < 64 && c < 64
      && SixBits(Char(a)) == a && SixBits(Char(b)) == b && SixBits(Char(c)) == c && SixBits(Char(d)) == d
      && a * 4 + b / 16 == x && b % 16 * 16 + c / 4 == y && c % 4 * 64 + d == z
  {
  }

  lemma OneByte(x: byte)
    ensures DecodeGroups(Encode([x])) == Some([x])
  {
    GroupBits(x, 0, 0);
    assert |Encode([x])| == 2;
  }

  lemma TwoBytes(x: byte, y: byte)
    ensures DecodeGroups(Encode([x, y])) == Some([x, y])
  {
    GroupBits(x, y, 0);
    assert |Encode([x, y])| == 3;
  }

  lemma {:induction false} ThreeBytes(x: byte, y: byte, z: byte, rest: Bytes)
    requires DecodeGroups(Encode(rest)) == Some(rest)
    ensures DecodeGroups(Encode([x, y, z] + rest)) == Some([x, y, z] + rest)
  {
    EncodeThree(x, y, z, rest);
    GroupBits(x, y, z);
    DecodeFour(Char(x / 4), Char(x % 4 * 16 + y / 16), Char(y % 16 * 4 + z / 64), Char(z % 64), Encode(rest));
  }

  lemma {:induction false} EncodeThree(x: byte, y: byte, z: byte, rest: Bytes)
    ensures x % 4 * 16 + y / 16 < 64 && y % 16 * 4 + z / 64 < 64
    ensures Encode([x, y, z] + rest) ==
            [Char(x / 4), Char(x % 4 * 16 + y / 16), Char(y % 16 * 4 + z / 64), Char(z % 64)] + Encode(rest)
  {
    var b := [x, y, z] + rest;
    assert b[0] == x && b[1] == y && b[2] == z && b[3..] == rest;
  }

  lemma {:induction false} DecodeFour(a: char, b: char, c: char, d: char, rest: string)
    requires SixBits(a) >= 0 && SixBits(b) >= 0 && SixBits(c) >= 0 && SixBits(d) >= 0 && DecodeGroups(rest).Some?
    ensures var p, q, r, s := SixBits(a), SixBits(b), SixBits(c), SixBits(d);
      DecodeGroups([a, b, c, d] + rest)
        == Some([p * 4 + q / 16, q % 16 * 16 + r / 4, r % 4 * 64 + s] + DecodeGroups(rest).value)
  {
    var t := [a, b, c, d] + rest;
    assert t[0] == a && t[1] == b && t[2] == c && t[3] == d && t[4..] == rest;
  }

  lemma {:induction false} GroupsRoundTrip(b: Bytes)
    ensures DecodeGroups(Encode(b)) == Some(b)
  {
    if |b| == 1 {
      OneByte(b[0]);
      assert b == [b[0]];
    } else if |b| == 2 {
      TwoBytes(b[0], b[1]);
      assert b == [b[0], b[1]];
    } else if |b| >= 3 {
      GroupsRoundTrip(b[3..]);
      ThreeBytes(b[0], b[1], b[2], b[3..]);
      assert b == [b[0], b[1], b[2]] + b[3..];
    }
  }

  lemma {:induction false} DecodeOfEncode(b: Bytes)
    ensures Decode(Encode(b)) == Some(b)
  {
    EncodeIsPlain(b);
    PlainHasNoBreaks(Encode(b));
    GroupsRoundTrip(b);
  }

  lemma {:induction false} DropBreaksAppend(s: string)
    ensures DropBreaks(s + "\n") == DropBreaks(s)
  {
    if s == "" {
      assert "\n"[1..] == "";
    } else {
      assert (s + "\n")[1..] == s[1..] + "\n";
      DropBreaksAppend(s[1..]);
    }
  }

  // ----- lower-case hex of bytes (encoding/hex) -----

  function HexOf(b: Bytes): (h: string)
    ensures |h| == 2 * |b|
  {
    if b == [] then "" else [DigitChar(b[0] / 16), DigitChar(b[0] % 16)] + HexOf(b[1..])
  }

  /** big.Int.SetBytes */
  function NatOf(b: Bytes): nat {
    if b == [] then 0 else NatOf(b[..|b| - 1]) * 256 + b[|b| - 1]
  }

  lemma {:induction false} HexInjective(a: Bytes, b: Bytes)
    ensures HexOf(a) == HexOf(b) <==> a == b
  {
    if HexOf(a) == HexOf(b) && a != [] {
      assert |a| == |b|;
      var x, y := HexOf(a), HexOf(b);
      assert x[0] == DigitChar(a[0] / 16) && x[1] == DigitChar(a[0] % 16);
      assert y[0] == DigitChar(b[0] / 16) && y[1] == DigitChar(b[0] % 16);
      assert DigitValue(x[0]) == a[0] / 16 && DigitValue(x[1]) == a[0] % 16;
      assert DigitValue(y[0]) == b[0] / 16 && DigitValue(y[1]) == b[0] % 16;
      assert x[2..] == HexOf(a[1..]) && y[2..] == HexOf(b[1..]);
      HexInjective(a[1..], b[1..]);
      assert a == [a[0]] + a[1..] && b == [b[0]] + b[1..];
    }
  }

  lemma {:induction false} HexIsDigits(b: Bytes)
    ensures AllDigits(HexOf(b), 16)
  {
    if b != [] {
      HexIsDigits(b[1..]);
    }
  }
}
