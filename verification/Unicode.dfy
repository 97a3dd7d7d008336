/** UTF-16 code units: how Go strings look to JavaScript. */
module Unicode {
  import opened Numerals

  /** A decoded Go string is a list of code points. */
  type Rune = n: int | 0 <= n <= 0x10FFFF

  /** utf16.Encode on one rune; surrogate code points become U+FFFD. */
  function Utf16Rune(r: Rune): seq<int> {
    if 0xD800 <= r < 0xE000 then [0xFFFD]
    else if r < 0x1_0000 then [r]
    else [0xD800 + (r - 0x1_0000) / 0x400, 0xDC00 + (r - 0x1_0000) % 0x400]
  }

  function Utf16(s: seq<Rune>): seq<int> {
    if s == [] then [] else Utf16(s[..|s| - 1]) + Utf16Rune(s[|s| - 1])
  }

  lemma {:induction false} Utf16Concat(s: seq<Rune>, t: seq<Rune>)
    ensures Utf16(s + t) == Utf16(s) + Utf16(t)
  {
    if t == [] {
      assert s + t == s;
    } else {
      var front, last := t[..|t| - 1], t[|t| - 1];
      Utf16Concat(s, front);
      assert (s + t)[..|s + t| - 1] == s + front && (s + t)[|s + t| - 1] == last;
      ConcatAssoc(Utf16(s), Utf16(front), Utf16Rune(last));
    }
  }
}
