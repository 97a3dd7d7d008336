/** JavaScript string literals and the JSON detour decodeJSString takes to read them. */
module JsStrings {
  import opened Numerals
  import opened Unicode

  /** Characters stand for code points. */
  function Units(c: char): seq<int> {
    Utf16Rune(c as int)
  }

  function Prepend(a: seq<int>, b: Option<seq<int>>): Option<seq<int>> {
    match b
    case Some(v) => Some(a + v)
    case None => None
  }

  /** The code unit of a \uXXXX escape at the start of t. */
  function HexEscape(t: string): Option<int> {
    if |t| >= 6 && t[0] == '\\' && t[1] == 'u' && AllDigits(t[2..6], 16) then Some(Value(t[2..6], 16)) else None
  }

  predicate IsHigh(u: int) { 0xD800 <= u < 0xDC00 }
  predicate IsLow(u: int) { 0xDC00 <= u < 0xE000 }

  /** The one-character escapes both languages read alike. */
  function SimpleEscape(c: char): Option<int> {
    match c
    case '\"' => Some(0x22)
    case '\\' => Some(0x5C)
    case '/' => Some(0x2F)
    case 'b' => Some(8)
    case 'f' => Some(12)
    case 'n' => Some(10)
    case 'r' => Some(13)
    case 't' => Some(9)
    case _ => None
  }

  // ----- encoding/json on the inside of a string -----

  /** Surrogate escapes count only in pairs; a lone one becomes U+FFFD. */
  function JsonUnquote(t: string): Option<seq<int>> {
    if t == "" then Some([])
    else if t[0] == '\\' then
      if |t| >= 2 && SimpleEscape(t[1]).Some? then Prepend([SimpleEscape(t[1]).value], JsonUnquote(t[2..]))
      else match HexEscape(t)
        case None => None
        case Some(u) =>
          var next := HexEscape(t[6..]);
          if IsHigh(u) && next.Some? && IsLow(next.value) then Prepend([u, next.value], JsonUnquote(t[12..]))
          else Prepend([if IsHigh(u) || IsLow(u) then 0xFFFD else u], JsonUnquote(t[6..]))
    else if t[0] == '\"' || t[0] < ' ' then None
    else Prepend(Units(t[0]), JsonUnquote(t[1..]))
  }

  /** No surrogate escape stands alone. */
  predicate PairedSurrogates(t: string) {
    if t == "" then true
    else if t[0] == '\\' then
      if |t| >= 2 && SimpleEscape(t[1]).Some? then PairedSurrogates(t[2..])
      else match HexEscape(t)
        case None => true
        case Some(u) =>
          var next := HexEscape(t[6..]);
          if IsHigh(u) && next.Some? && IsLow(next.value) then PairedSurrogates(t[12..])
          else !IsHigh(u) && !IsLow(u) && PairedSurrogates(t[6..])
    else PairedSurrogates(t[1..])
  }

  // ----- the value of a literal in JavaScript (section 12.9.4 of ECMA-262) -----

  /** None for a malformed body and for the escape forms JSON does not have. */
  function JsValue(quote: char, t: string): Option<seq<int>> {
    if t == "" then Some([])
    else if t[0] == '\\' then
      if |t| >= 2 && t[1] == '\'' then Prepend([0x27], JsValue(quote, t[2..]))
      else if |t| >= 2 && SimpleEscape(t[1]).Some? then Prepend([SimpleEscape(t[1]).value], JsValue(quote, t[2..]))
      else match HexEscape(t)
        case None => None
        case Some(u) => Prepend([u], JsValue(quote, t[6..]))
    else if t[0] == quote || t[0] == '\n' || t[0] == '\r' then None
    else Prepend(Units(t[0]), JsValue(quote, t[1..]))
  }

  // ----- decodeJSString -----

  /** Escape pairs are kept, bare double quotes are escaped. */
  function Safe(body: string): string {
    if body == "" then ""
    else if body[0] == '\\' && |body| >= 2 then body[..2] + Safe(body[2..])
    else if body[0] == '\"' then "\\\"" + Safe(body[1..])
    else body[..1] + Safe(body[1..])
  }

  /** strings.ReplaceAll(text, `\'`, `'`) */
  function UnescapeSingle(text: string): string {
    if |text| < 2 then text
    else if text[0] == '\\' && text[1] == '\'' then "'" + UnescapeSingle(text[2..])
    else text[..1] + UnescapeSingle(text[1..])
  }

  function JsonText(quote: char, body: string): string {
    if quote == '\'' then UnescapeSingle(Safe(body)) else Safe(body)
  }

  function Decode(quote: char, body: string): Option<seq<int>> {
    JsonUnquote(JsonText(quote, body))
  }

  /** What the scanner hands over: the quote occurs only behind a backslash. */
  predicate WellQuoted(quote: char, body: string) {
    if body == "" then true
    else if body[0] == '\\' && |body| >= 2 then WellQuoted(quote, body[2..])
    else body[0] != quote && WellQuoted(quote, body[1..])
  }

  method DecodeJsString(quote: char, body: string) returns (value: Option<seq<int>>)
    ensures value == Decode(quote, body)
  {
    var safe := "";
    var i := 0;
    while i < |body|
      invariant 0 <= i <= |body|
      invariant safe + Safe(body[i..]) == Safe(body)
    {
      SafeStep(safe, body, i);
      var c := body[i];
      if c == '\\' && i + 1 < |body| {
        safe := safe + [c, body[i + 1]];
        i := i + 1;
      } else if c == '\"' {
        safe := safe + "\\\"";
      } else {
        safe := safe + [c];
      }
      i := i + 1;
    }
    assert body[i..] == "" && safe + "" == safe;
    var text := safe;
    if quote == '\'' {
      text := UnescapeSingle(text);
    }
    value := JsonUnquote(text);
  }

  lemma SafeStep(safe: string, body: string, i: nat)
    requires i < |body|
    ensures safe + Safe(body[i..]) ==
            if body[i] == '\\' && i + 1 < |body| then safe + [body[i], body[i + 1]] + Safe(body[i + 2..])
            else if body[i] == '\"' then safe + "\\\"" + Safe(body[i + 1..])
            else safe + [body[i]] + Safe(body[i + 1..])
  {
    var t := body[i..];
    assert t[1..] == body[i + 1..];
    if |t| >= 2 {
      assert t[2..] == body[i + 2..] && t[..2] == [body[i], body[i + 1]];
    }
    assert t[..1] == [body[i]];
  }

  // ----- the detour gives the JavaScript value -----

  /** The JSON text, pair by pair. */
  function JsonPairs(quote: char, body: string): string {
    if body == "" then ""
    else if body[0] == '\\' && |body| >= 2 then
      (if quote == '\'' && body[1] == '\'' then "'" else body[..2]) + JsonPairs(quote, body[2..])
    else if body[0] == '\"' then "\\\"" + JsonPairs(quote, body[1..])
    else body[..1] + JsonPairs(quote, body[1..])
  }

  lemma {:induction false} UnescapeTwo(a: char, b: char, rest: string)
    requires !(a == '\\' && b == '\'')
    requires !(b == '\\' && rest != "" && rest[0] == '\'')
    ensures UnescapeSingle([a, b] + rest) == [a, b] + UnescapeSingle(rest)
  {
    var tail := [b] + rest;
    assert [a, b] + rest == [a] + tail;
    UnescapeOne(a, tail);
    UnescapeOne(b, rest);
    assert [a] + ([b] + UnescapeSingle(rest)) == [a, b] + UnescapeSingle(rest);
  }

  lemma {:induction false} UnescapeOne(b: char, rest: string)
    requires !(b == '\\' && rest != "" && rest[0] == '\'')
    ensures UnescapeSingle([b] + rest) == [b] + UnescapeSingle(rest)
  {
    var t := [b] + rest;
    assert t[1..] == rest && t[..1] == [b];
  }

  /** In a single-quoted body, replacing \' text-wide touches exactly the escape pairs. */
  lemma {:induction false} UnescapeIsPairwise(body: string)
    requires WellQuoted('\'', body)
    ensures UnescapeSingle(Safe(body)) == JsonPairs('\'', body)
    decreases |body|
  {
    if body == "" {
    } else if body[0] == '\\' && |body| >= 2 {
      var rest := body[2..];
      UnescapeIsPairwise(rest);
      assert body[..2] == [body[0], body[1]];
      assert rest != "" && rest[0] == '\'' ==> false;
      if body[1] == '\'' {
        assert (body[..2] + Safe(rest))[2..] == Safe(rest);
      } else {
        UnescapeTwo(body[0], body[1], Safe(rest));
      }
    } else {
      var rest := body[1..];
      UnescapeIsPairwise(rest);
      if body[0] == '\"' {
        UnescapeTwo('\\', '\"', Safe(rest));
      } else {
        assert body[..1] == [body[0]];
        UnescapeOne(body[0], Safe(rest));
      }
    }
  }

  lemma {:induction false} DoubleQuotedPairs(body: string)
    ensures JsonPairs('\"', body) == Safe(body)
    decreases |body|
  {
    if body == "" {
    } else if body[0] == '\\' && |body| >= 2 {
      DoubleQuotedPairs(body[2..]);
    } else {
      DoubleQuotedPairs(body[1..]);
    }
  }

  lemma {:induction false} JsonTextIsPairwise(quote: char, body: string)
    requires (quote == '\'' || quote == '\"') && WellQuoted(quote, body)
    ensures JsonText(quote, body) == JsonPairs(quote, body)
  {
    if quote == '\'' {
      UnescapeIsPairwise(body);
    } else {
      DoubleQuotedPairs(body);
    }
  }

  /** A hex digit in the JSON text was copied from the body. */
  lemma {:induction false} CopiedDigit(quote: char, body: string)
    requires JsonPairs(quote, body) != "" && IsDigit(JsonPairs(quote, body)[0], 16)
    ensures body != "" && body[0] == JsonPairs(quote, body)[0]
    ensures JsonPairs(quote, body)[1..] == JsonPairs(quote, body[1..])
    ensures WellQuoted(quote, body) ==> WellQuoted(quote, body[1..])
  {
  }

  lemma {:induction false} CopiedHexEscape(quote: char, body: string)
    requires WellQuoted(quote, body) && HexEscape(JsonPairs(quote, body)).Some?
    ensures HexEscape(body) == HexEscape(JsonPairs(quote, body))
    ensures JsonPairs(quote, body)[6..] == JsonPairs(quote, body[6..])
    ensures WellQuoted(quote, body[6..])
    ensures body[0] == '\\' && body[1] == 'u'
  {
    var t := JsonPairs(quote, body);
    EscapeHead(quote, body);
    var b2 := body[2..];
    assert t[2..] == JsonPairs(quote, b2) && t[2..6] == t[2..][..4];
    CopiedDigits(quote, b2, 4);
    assert body[6..] == b2[4..] && body[2..6] == b2[..4] && t[6..] == t[2..][4..];
  }

  /** n hex digits in the JSON text were copied from the body. */
  lemma {:induction false} CopiedDigits(quote: char, body: string, n: nat)
    requires n <= |JsonPairs(quote, body)| && AllDigits(JsonPairs(quote, body)[..n], 16) && WellQuoted(quote, body)
    ensures n <= |body| && body[..n] == JsonPairs(quote, body)[..n]
    ensures JsonPairs(quote, body)[n..] == JsonPairs(quote, body[n..]) && WellQuoted(quote, body[n..])
    decreases n
  {
    var t := JsonPairs(quote, body);
    if n == 0 {
      assert body[0..] == body && t[0..] == t;
    } else {
      assert IsDigit(t[..n][0], 16);
      CopiedDigit(quote, body);
      SlicesOfTail(t, n);
      CopiedDigits(quote, body[1..], n - 1);
      SlicesOfTail(body, n);
    }
  }

  lemma SlicesOfTail(t: string, n: nat)
    requires 1 <= n <= |t|
    ensures t[..n] == [t[0]] + t[1..][..n - 1] && t[n..] == t[1..][n - 1..]
    ensures AllDigits(t[..n], 16) ==> AllDigits(t[1..][..n - 1], 16)
  {
    assert t[1..][..n - 1] == t[..n][1..];
  }

  lemma {:induction false} EscapeHead(quote: char, body: string)
    requires WellQuoted(quote, body)
    requires var t := JsonPairs(quote, body); |t| >= 2 && t[0] == '\\' && t[1] == 'u'
    ensures |body| >= 2 && body[0] == '\\' && body[1] == 'u'
    ensures JsonPairs(quote, body)[2..] == JsonPairs(quote, body[2..]) && WellQuoted(quote, body[2..])
  {
  }

  /** Agreement of the two readings, in a form that composes. */
  predicate Readings(json: Option<seq<int>>, js: Option<seq<int>>, paired: bool) {
    json.Some? ==> js.Some? && |js.value| == |json.value| && (js == json <==> paired)
  }

  lemma PrependReadings(a: seq<int>, b: seq<int>, json: Option<seq<int>>, js: Option<seq<int>>, paired: bool)
    requires |a| == |b| && Readings(json, js, paired)
    ensures Readings(Prepend(a, json), Prepend(b, js), a == b && paired)
  {
    if json.Some? {
      var v, w := json.value, js.value;
      assert (a + v)[..|a|] == a && (b + w)[..|a|] == b;
      assert (a + v)[|a|..] == v && (b + w)[|a|..] == w;
    }
  }

  lemma {:induction false} ReadingsAgree(quote: char, body: string)
    requires (quote == '\'' || quote == '\"') && WellQuoted(quote, body)
    ensures var t := JsonPairs(quote, body); Readings(JsonUnquote(t), JsValue(quote, body), PairedSurrogates(t))
    decreases |body|, 1
  {
    var t := JsonPairs(quote, body);
    if body == "" {
    } else if HexEscape(t).Some? {
      HexReadings(quote, body);
    } else if body[0] == '\\' {
      if |body| >= 2 {
        var rest := body[2..];
        ReadingsAgree(quote, rest);
        var c := if body[1] == '\'' then 0x27 else SimpleEscape(body[1]).GetOr(0);
        PrependReadings([c], [c], JsonUnquote(JsonPairs(quote, rest)), JsValue(quote, rest),
                        PairedSurrogates(JsonPairs(quote, rest)));
        if quote == '\'' && body[1] == '\'' {
          assert t == "'" + JsonPairs(quote, rest) && t[1..] == JsonPairs(quote, rest);
        } else {
          assert t == body[..2] + JsonPairs(quote, rest) && t[2..] == JsonPairs(quote, rest);
        }
      }
    } else {
      var rest := body[1..];
      ReadingsAgree(quote, rest);
      PrependReadings(Units(body[0]), Units(body[0]), JsonUnquote(JsonPairs(quote, rest)), JsValue(quote, rest),
                      PairedSurrogates(JsonPairs(quote, rest)));
      if body[0] == '\"' {
        assert t == "\\\"" + JsonPairs(quote, rest) && t[2..] == JsonPairs(quote, rest);
      } else {
        assert t == body[..1] + JsonPairs(quote, rest) && t[1..] == JsonPairs(quote, rest);
      }
    }
  }

  lemma {:induction false} HexReadings(quote: char, body: string)
    requires (quote == '\'' || quote == '\"') && WellQuoted(quote, body)
    requires HexEscape(JsonPairs(quote, body)).Some?
    ensures var t := JsonPairs(quote, body); Readings(JsonUnquote(t), JsValue(quote, body), PairedSurrogates(t))
    decreases |body|, 0
  {
    var t := JsonPairs(quote, body);
    CopiedHexEscape(quote, body);
    var u, b6, t6 := HexEscape(t).value, body[6..], t[6..];
    assert SimpleEscape('u').None? && t[1] == 'u';
    var next := HexEscape(t6);
    if IsHigh(u) && next.Some? && IsLow(next.value) {
      CopiedHexEscape(quote, b6);
      var b12, t12 := b6[6..], t6[6..];
      assert t12 == t[12..];
      ReadingsAgree(quote, b12);
      PrependReadings([next.value], [next.value], JsonUnquote(t12), JsValue(quote, b12), PairedSurrogates(t12));
      PrependReadings([u], [u], Prepend([next.value], JsonUnquote(t12)), Prepend([next.value], JsValue(quote, b12)),
                      PairedSurrogates(t12));
      PrependTwice(u, next.value, JsonUnquote(t12));
      assert JsValue(quote, b6) == Prepend([next.value], JsValue(quote, b12));
      assert JsValue(quote, body) == Prepend([u], JsValue(quote, b6));
    } else {
      ReadingsAgree(quote, b6);
      var w := if IsHigh(u) || IsLow(u) then 0xFFFD else u;
      PrependReadings([w], [u], JsonUnquote(t6), JsValue(quote, b6), PairedSurrogates(t6));
      assert [w] == [u] <==> !IsHigh(u) && !IsLow(u) by {
        assert [w][0] == w && [u][0] == u;
      }
      assert JsValue(quote, body) == Prepend([u], JsValue(quote, b6));
    }
  }

  lemma PrependTwice(u: int, v: int, w: Option<seq<int>>)
    ensures Prepend([u], Prepend([v], w)) == Prepend([u, v], w)
  {
    if w.Some? {
      assert [u] + ([v] + w.value) == [u, v] + w.value;
    }
  }

  /**
   * Whenever decodeJSString answers, the answer is the literal's JavaScript value, exactly when every
   * surrogate escape in it is half of a pair.
   */
  lemma {:induction false} DecodeIsJsValue(quote: char, body: string)
    requires (quote == '\'' || quote == '\"') && WellQuoted(quote, body) && Decode(quote, body).Some?
    ensures JsValue(quote, body).Some?
    ensures JsValue(quote, body) == Decode(quote, body) <==> PairedSurrogates(JsonText(quote, body))
  {
    JsonTextIsPairwise(quote, body);
    ReadingsAgree(quote, body);
  }

  lemma {:induction false} DigitsAreCopied(quote: char, d: string)
    requires (quote == '\'' || quote == '\"') && AllDigits(d, 16)
    ensures WellQuoted(quote, d) && JsonPairs(quote, d) == d
  {
    if d != "" {
      assert IsDigit(d[0], 16);
      DigitsAreCopied(quote, d[1..]);
      assert d[..1] + d[1..] == d;
    }
  }

  lemma EscapeIsCopied(quote: char, body: string)
    requires (quote == '\'' || quote == '\"') && |body| == 6 && HexEscape(body).Some?
    ensures JsonText(quote, body) == body
  {
    var d := body[2..];
    assert d == body[2..6] && body[..2] + d == body;
    DigitsAreCopied(quote, d);
    JsonTextIsPairwise(quote, body);
  }

  /** A lone surrogate escape does not survive: U+FFFD takes its place. */
  lemma {:induction false} LoneSurrogateIsLost(quote: char, body: string)
    requires (quote == '\'' || quote == '\"') && |body| == 6 && HexEscape(body).Some?
    requires IsHigh(HexEscape(body).value) || IsLow(HexEscape(body).value)
    ensures Decode(quote, body) == Some([0xFFFD])
    ensures JsValue(quote, body) == Some([HexEscape(body).value])
  {
    EscapeIsCopied(quote, body);
    var u, none := HexEscape(body).value, body[6..];
    assert SimpleEscape(body[1]).None? && none == "" && HexEscape(none).None?;
    assert JsonUnquote(body) == Prepend([0xFFFD], JsonUnquote(none)) && JsonUnquote(none) == Some([]);
    assert JsValue(quote, body) == Prepend([u], JsValue(quote, none)) && JsValue(quote, none) == Some([]);
    assert [0xFFFD] + [] == [0xFFFD] && [u] + [] == [u];
  }

  /** For example '\ud800'. */
  lemma LoneHighSurrogate()
    ensures Decode('\'', "\\ud800") == Some([0xFFFD]) && JsValue('\'', "\\ud800") == Some([0xD800])
  {
    var body := "\\ud800";
    assert body[2..6] == "d800";
    ValueOfDigits(0xD800, 16);
    assert Digits(0xD800, 16) == "d800" by {
      assert Digits(0xD, 16) == "d";
      assert Digits(0xD8, 16) == "d8";
      assert Digits(0xD80, 16) == "d80";
    }
    assert Value(body[2..6], 16) == 0xD800;
    assert HexEscape(body) == Some(0xD800);
    LoneSurrogateIsLost('\'', body);
  }
}
