/** obfuscateStrings: every string literal becomes an entry of a shuffled table (instrumentation.go). */
module Obfuscate {
  import opened JsStrings
  import opened Numerals
  import opened Shuffle

  type JsString = seq<int>

  predicate IsQuote(c: char) { c == '\'' || c == '\"' }

  // ----- scanning -----

  /** A backslash takes the next character along, unless that is a line feed. */
  predicate EscapesNext(s: string, j: nat)
    requires j < |s|
  {
    s[j] == '\\' && j + 1 < |s| && s[j + 1] != '\n'
  }

  /** The position of the closing quote, looking from j on. */
  function FindClose(s: string, quote: char, j: nat): (r: Option<nat>)
    ensures r.Some? ==> j <= r.value < |s|
    decreases |s| - j
  {
    if j >= |s| then None
    else if EscapesNext(s, j) then FindClose(s, quote, j + 2)
    else if s[j] == quote then Some(j)
    else FindClose(s, quote, j + 1)
  }

  /** The scan for the closing quote, collecting the body. */
  method FindQuote(script: string, quote: char, i: nat) returns (close: Option<nat>, body: string)
    requires i <= |script|
    ensures close == FindClose(script, quote, i)
    ensures close.Some? ==> body == script[i..close.value]
  {
    var j := i;
    body := "";
    while j < |script|
      invariant i <= j <= |script|
      invariant body == script[i..j]
      invariant FindClose(script, quote, i) == FindClose(script, quote, j)
    {
      var c := script[j];
      if c == '\\' && j + 1 < |script| && script[j + 1] != '\n' {
        assert EscapesNext(script, j);
        assert script[i..j + 2] == script[i..j] + [c, script[j + 1]];
        body := body + [c, script[j + 1]];
        j := j + 2;
      } else if c == quote {
        return Some(j), body;
      } else {
        assert script[i..j + 1] == script[i..j] + [c];
        body := body + [c];
        j := j + 1;
      }
    }
    return None, body;
  }

  datatype Literal = Literal(start: nat, end: nat, value: JsString)

  /** A literal whose body does not decode is left alone. */
  function Decoded(start: nat, end: nat, value: Option<JsString>): Option<Literal> {
    match value
    case None => None
    case Some(v) => Some(Literal(start, end, v))
  }

  /** The body the scanner collects never holds its quote bare, as decodeJSString relies on. */
  lemma {:induction false} BodyIsWellQuoted(s: string, quote: char, j: nat)
    requires quote != '\\' && quote != '\n' && FindClose(s, quote, j).Some?
    ensures WellQuoted(quote, s[j..FindClose(s, quote, j).value])
    decreases |s| - j
  {
    var k := FindClose(s, quote, j).value;
    var body := s[j..k];
    if EscapesNext(s, j) {
      BodyIsWellQuoted(s, quote, j + 2);
      assert body[2..] == s[j + 2..k];
    } else if s[j] != quote {
      BodyIsWellQuoted(s, quote, j + 1);
      assert body[1..] == s[j + 1..k];
      if s[j] == '\\' && |body| >= 2 {
        assert s[j + 1] == '\n' && !EscapesNext(s, j + 1);
        assert body[1..][1..] == body[2..];
        assert body[1..][0] == '\n';
      }
    }
  }

  lemma DecodedParts(start: nat, end: nat, value: Option<JsString>, lit: Literal)
    requires Decoded(start, end, value) == Some(lit)
    ensures lit.end == end && value == Some(lit.value)
  {
  }

  // ----- the table -----

  /** index holds every literal's value at its place in the table. */
  predicate Indexes(index: map<JsString, nat>, table: seq<JsString>, literals: seq<Literal>) {
    && (forall v :: v in index ==> index[v] < |table| && table[index[v]] == v)
    && (forall k :: 0 <= k < |literals| ==> literals[k].value in index)
  }

  /** First-seen order, each value once. */
  method Collect(literals: seq<Literal>) returns (values: seq<JsString>)
    ensures NoDuplicates(values)
    ensures forall v :: v in values <==> exists k :: 0 <= k < |literals| && literals[k].value == v
  {
    var index: map<JsString, nat> := map[];
    values := [];
    for i := 0 to |literals|
      invariant NoDuplicates(values)
      invariant forall v :: v in index <==> v in values
      invariant forall v :: v in values <==> exists k :: 0 <= k < i && literals[k].value == v
    {
      var v := literals[i].value;
      if v !in index {
        index := index[v := |values|];
        values := values + [v];
      }
    }
  }

  method Reindex(table: seq<JsString>) returns (index: map<JsString, nat>)
    requires NoDuplicates(table)
    ensures index.Keys == (set v | v in table)
    ensures forall v :: v in index ==> index[v] < |table| && table[index[v]] == v
  {
    index := map[];
    for i := 0 to |table|
      invariant index.Keys == (set v | v in table[..i])
      invariant forall v :: v in index ==> index[v] < i && table[index[v]] == v
    {
      index := index[table[i] := i];
      assert table[..i + 1] == table[..i] + [table[i]];
    }
    assert table[..|table|] == table;
  }

  datatype Output =
    | Unchanged(script: string)
    | Tabled(tName: string, table: seq<JsString>, body: string)

  method BuildTable(literals: seq<Literal>, draw: nat -> nat) returns (table: seq<JsString>, index: map<JsString, nat>)
    requires forall i :: draw(i) <= i
    ensures NoDuplicates(table) && Indexes(index, table, literals)
  {
    var values := Collect(literals);
    var items := new JsString[|values|](i requires 0 <= i < |values| => values[i]);
    assert items[..] == values;
    var js: seq<nat> := seq(|values|, i requires 0 <= i < |values| => draw(i));
    ShuffleInPlace(items, js);
    table := items[..];
    ShuffledIsPermutation(values, js);
    RearrangedKeepsDistinct(values, table);
    index := Reindex(table);
    assert forall k :: 0 <= k < |literals| ==> literals[k].value in values;
  }

  // ----- the rewritten body -----

  function Ref(tName: string, k: nat): string {
    tName + "[" + Decimal(k) + "]"
  }

  lemma ConcatFour<T>(a: seq<T>, b: seq<T>, c: seq<T>, d: seq<T>)
    ensures a + (b + (c + d)) == ((a + b) + c) + d
  {
  }

  // ----- meaning -----

  /**
   * Source text as a reader of JavaScript sees it: single characters, string values, and the literals
   * whose value JSON cannot express, each in one piece.
   */
  datatype Piece = Ch(c: char) | Str(v: JsString) | Raw(text: string)

  /** Where the quote at i closes, if it is one and does. */
  function CloseAt(s: string, i: nat): (r: Option<nat>)
    requires i < |s|
    ensures r.Some? ==> i < r.value < |s|
  {
    if IsQuote(s[i]) then FindClose(s, s[i], i + 1) else None
  }

  /** The piece of a closed literal. */
  function Quoted(text: string, value: Option<JsString>): Piece {
    if value.Some? then Str(value.value) else Raw(text)
  }

  predicate IsIdentifierPart(c: char) {
    'a' <= c <= 'z' || 'A' <= c <= 'Z' || '0' <= c <= '9' || c == '_' || c == '$' || c as int > 0x7F
  }

  /** What directly follows the piece becomes part of the same identifier. */
  predicate Glues(p: Piece) {
    p.Ch? && IsIdentifierPart(p.c)
  }

  /** What randHex guarantees about the name "_T" + six hex digits. */
  predicate IsTableName(tName: string) {
    && tName != "" && tName[0] == '_' && (forall i :: 0 < i < |tName| ==> tName[i] != '_')
    && (forall i :: 0 <= i < |tName| ==> IsIdentifierPart(tName[i]))
  }

  predicate Occurs(name: string, s: string) {
    exists i :: 0 <= i <= |s| && name <= s[i..]
  }

  /** A table reference at the start of t: its length and the entry it names. */
  function RefAt(t: string, tName: string, size: nat): (r: Option<(nat, nat)>)
    requires tName != ""
    ensures r.Some? ==> 0 < r.value.0 <= |t| && r.value.1 < size
  {
    if !(tName <= t) then None
    else
      var u := t[|tName|..];
      if u == "" || u[0] != '[' then None
      else
        var n := DigitPrefix(u[1..]);
        if n == 0 || n + 1 >= |u| || u[n + 1] != ']' then None
        else
          var k := Value(u[1..][..n], 10);
          if k < size then Some((|tName| + n + 2, k)) else None
  }

  lemma {:induction false} DigitsThenBracket(d: string, rest: string)
    requires AllDigits(d, 10)
    ensures DigitPrefix(d + "]" + rest) == |d|
  {
    var t := d + "]" + rest;
    if d == "" {
      assert t[0] == ']';
    } else {
      assert t[0] == d[0] && IsDigit(d[0], 10);
      assert t[1..] == d[1..] + "]" + rest;
      DigitsThenBracket(d[1..], rest);
    }
  }

  lemma RefIsRead(tName: string, k: nat, rest: string, size: nat)
    requires tName != "" && k < size
    ensures RefAt(Ref(tName, k) + rest, tName, size) == Some((|Ref(tName, k)|, k))
    ensures (Ref(tName, k) + rest)[|Ref(tName, k)|..] == rest
  {
    var d := Decimal(k);
    var t := Ref(tName, k) + rest;
    var u := t[|tName|..];
    assert u == "[" + d + "]" + rest;
    assert u[1..] == d + "]" + rest;
    DigitsThenBracket(d, rest);
    assert u[1..][..|d|] == d;
    ValueOfDigits(k, 10);
    assert u[|d| + 1] == ']';
  }

  lemma AppendParts<T>(a: seq<T>, b: seq<T>)
    ensures (a + b)[|a|..] == b
    ensures a != [] ==> (a + b)[0] == a[0]
  {
  }

  lemma SlicesOfPrefix(s: string, i: nat, k: nat, rest: string)
    requires i < k < |s|
    ensures var t := s[i..k + 1] + rest; t[0] == s[i] && t[0..k + 1 - i] == s[i..k + 1] && t[1..k - i] == s[i + 1..k]
  {
    var g, n := s[i..k + 1], k - i;
    var t := g + rest;
    assert t[0..n + 1] == g;
    forall m | 0 <= m < n - 1
      ensures t[1..n][m] == s[i + 1..k][m]
    {
      assert t[1..n][m] == t[m + 1] == g[m + 1] == s[i + m + 1];
    }
    assert |t[1..n]| == n - 1 == |s[i + 1..k]|;
  }

  /** No prefix of x + r is y, if y and r part after x. */
  lemma OtherTextAfter(x: string, r: string, y: string)
    requires |x| < |y| && r != "" && y[|x|] != r[0]
    ensures forall stop :: 0 <= stop <= |x + r| ==> (x + r)[0..stop] != y
  {
    forall stop | 0 <= stop <= |x + r|
      ensures (x + r)[0..stop] != y
    {
      assert (x + r)[|x|] == r[0];
      assert stop == |y| ==> (x + r)[0..stop][|x|] != y[|x|];
    }
  }

  lemma OtherTextInGap(s: string, i: nat, j: nat, end: nat, r: string)
    requires i < j < end <= |s| && r != "" && s[j] != r[0]
    ensures var t := s[i..j] + r;
      t != "" && t[0] == s[i] && forall stop :: 0 <= stop <= |t| ==> t[0..stop] != s[i..end]
  {
    assert s[i..end][j - i] == s[j];
    OtherTextAfter(s[i..j], r, s[i..end]);
  }

  lemma QuoteIsNoReference(t: string, tName: string, size: nat)
    requires t != "" && IsQuote(t[0]) && IsTableName(tName)
    ensures RefAt(t, tName, size).None?
  {
    assert tName[0] != t[0];
  }

  // ----- quotes in the rewritten text close where they closed before -----

  /** Neither a quote nor a backslash. */
  predicate PlainFrom(x: string, j: nat) {
    forall m :: j <= m < |x| ==> !IsQuote(x[m]) && x[m] != '\\'
  }

  lemma {:induction false} FindCloseSuffix(x: string, u: string, q: char, j: nat)
    requires |x| <= j
    ensures FindClose(x + u, q, j).None? <==> FindClose(u, q, j - |x|).None?
    decreases |x| + |u| - j
  {
    if j < |x| + |u| {
      var t := x + u;
      assert t[j] == u[j - |x|] && (j + 1 < |t| ==> t[j + 1] == u[j - |x| + 1]);
      assert EscapesNext(t, j) == EscapesNext(u, j - |x|);
      if EscapesNext(t, j) {
        FindCloseSuffix(x, u, q, j + 2);
      } else if t[j] != q {
        FindCloseSuffix(x, u, q, j + 1);
      }
    }
  }

  lemma {:induction false} FindClosePlain(x: string, u: string, q: char, j: nat)
    requires j <= |x| && PlainFrom(x, j) && IsQuote(q)
    ensures FindClose(x + u, q, j).None? <==> FindClose(u, q, 0).None?
    decreases |x| - j
  {
    if j == |x| {
      FindCloseSuffix(x, u, q, j);
    } else {
      assert (x + u)[j] == x[j];
      FindClosePlain(x, u, q, j + 1);
    }
  }

  /** The search looks no further than the closing quote. */
  lemma {:induction false} FindClosePrefix(s: string, i: nat, w: string, q: char, j: nat)
    requires i <= j && IsQuote(q) && FindClose(s, q, j).Some?
    ensures var k := FindClose(s, q, j).value; FindClose(s[i..k + 1] + w, q, j - i) == Some(k - i)
    decreases |s| - j
  {
    var k := FindClose(s, q, j).value;
    EscapesAlike(s, i, k, w, j);
    if EscapesNext(s, j) {
      FindClosePrefix(s, i, w, q, j + 2);
    } else if s[j] != q {
      FindClosePrefix(s, i, w, q, j + 1);
    } else {
      QuoteDoesNotEscape(s[i..k + 1] + w, j - i);
    }
  }

  lemma EscapesAlike(s: string, i: nat, k: nat, w: string, j: nat)
    requires i <= j <= k < |s|
    ensures var t := s[i..k + 1] + w;
      t[j - i] == s[j] && (j < k ==> EscapesNext(t, j - i) == EscapesNext(s, j))
  {
    var t := s[i..k + 1] + w;
    assert t[j - i] == s[j] && (j < k ==> t[j - i + 1] == s[j + 1]);
  }

  lemma QuoteDoesNotEscape(t: string, j: nat)
    requires j < |t| && t[j] != '\\'
    ensures !EscapesNext(t, j)
  {
  }

  /** A search for another quote passes over a closed literal in step with it. */
  lemma {:induction false} SearchPassesLiteral(s: string, q: char, r: char, j: nat)
    requires IsQuote(q) && IsQuote(r) && FindClose(s, r, j).Some? && FindClose(s, q, j).None?
    ensures q != r && FindClose(s, q, FindClose(s, r, j).value + 1).None?
    decreases |s| - j
  {
    if EscapesNext(s, j) {
      SearchPassesLiteral(s, q, r, j + 2);
    } else if s[j] != r {
      SearchPassesLiteral(s, q, r, j + 1);
    }
  }

  lemma {:induction false} OpenPastLiteral(s: string, i: nat, k: nat, q: char)
    requires i < |s| && IsQuote(q) && FindClose(s, q, i + 1).None?
    requires IsQuote(s[i]) && FindClose(s, s[i], i + 1) == Some(k)
    ensures FindClose(s, q, k + 1).None? && s[i] != q
  {
    SearchPassesLiteral(s, q, s[i], i + 1);
  }

  lemma RefIsPlain(tName: string, k: nat)
    requires IsTableName(tName)
    ensures PlainFrom(Ref(tName, k), 0)
  {
    var d := Decimal(k);
    assert forall m :: 0 <= m < |d| ==> IsDigit(d[m], 10);
    forall m | 0 <= m < |Ref(tName, k)|
      ensures !IsQuote(Ref(tName, k)[m]) && Ref(tName, k)[m] != '\\'
    {
      assert m < |tName| ==> IsIdentifierPart(tName[m]);
      assert |tName| < m < |tName| + 1 + |d| ==> IsDigit(d[m - |tName| - 1], 10);
    }
  }

  lemma RefThenOpen(tName: string, k: nat, tail: string, q: char)
    requires IsTableName(tName) && IsQuote(q) && FindClose(tail, q, 0).None?
    ensures FindClose(Ref(tName, k) + tail, q, 0).None?
  {
    RefIsPlain(tName, k);
    FindClosePlain(Ref(tName, k), tail, q, 0);
  }

  lemma CharThenOpen(c: char, rest: string, q: char)
    requires c != q && !EscapesNext([c] + rest, 0) && FindClose(rest, q, 0).None?
    ensures FindClose([c] + rest, q, 0).None?
  {
    FindCloseSuffix([c], rest, q, 1);
  }

  lemma EscapedChar(c: char, tail: string, q: char)
    requires c != '\n' && FindClose(tail, q, 0).None?
    ensures FindClose(['\\'] + ([c] + tail), q, 0).None?
  {
    var t := ['\\', c] + tail;
    assert ['\\'] + ([c] + tail) == t;
    FindCloseSuffix(['\\', c], tail, q, 2);
    assert EscapesNext(t, 0);
  }

  /** A backslash before a reference only takes its first character along. */
  lemma {:induction false} EscapedRef(tName: string, k: nat, tail: string, q: char)
    requires IsTableName(tName) && IsQuote(q) && FindClose(tail, q, 0).None?
    ensures FindClose(['\\'] + (Ref(tName, k) + tail), q, 0).None?
  {
    var x := ['\\'] + Ref(tName, k);
    RefIsPlain(tName, k);
    assert PlainFrom(x, 2) by {
      assert forall m :: 2 <= m < |x| ==> x[m] == Ref(tName, k)[m - 1];
    }
    assert ['\\'] + (Ref(tName, k) + tail) == x + tail;
    assert (x + tail)[1] == '_';
    FindClosePlain(x, tail, q, 2);
  }

  lemma TailIndexes(lit: Literal, rest: seq<Literal>, index: map<JsString, nat>, table: seq<JsString>)
    requires Indexes(index, table, [lit] + rest)
    ensures Indexes(index, table, rest) && lit.value in index
  {
    assert forall k :: 0 <= k < |rest| ==> ([lit] + rest)[k + 1] == rest[k];
    assert ([lit] + rest)[0] == lit;
  }

  /** obfuscateStrings and the reading of its output, whatever decoder tells the value of a literal's body. */
  datatype Scanner = Scanner(decode: (char, string) -> Option<JsString>) {
    /** The decoder is decodeJSString. */
    ghost predicate ReadsJson() {
      forall quote, body :: decode(quote, body) == Decode(quote, body)
    }

    /** The literal that starts at i, if its quote closes and its body decodes. */
    function LiteralAt(s: string, i: nat): (r: Option<Literal>)
      requires i < |s|
      ensures r.Some? ==> r.value.start == i && i + 1 < r.value.end <= |s|
    {
      if !IsQuote(s[i]) then None
      else match FindClose(s, s[i], i + 1)
        case None => None
        case Some(k) => Decoded(i, k + 1, decode(s[i], s[i + 1..k]))
    }

    function Literals(s: string, i: nat): (r: seq<Literal>)
      requires i <= |s|
      decreases |s| - i
    {
      if i == |s| then []
      else match LiteralAt(s, i)
        case Some(lit) => [lit] + Literals(s, lit.end)
        case None => Literals(s, i + 1)
    }

    predicate InScript(s: string, i: nat, lit: Literal) {
      i <= lit.start < lit.end <= |s| && LiteralAt(s, lit.start) == Some(lit)
    }

    /** In order, disjoint, and each found where it starts. */
    predicate Ordered(s: string, i: nat, ls: seq<Literal>) {
      && (forall k :: 0 <= k < |ls| ==> InScript(s, i, ls[k]))
      && (forall k :: 0 < k < |ls| ==> ls[k - 1].end <= ls[k].start)
    }

    lemma OrderedCons(s: string, i: nat, lit: Literal, rest: seq<Literal>)
      requires InScript(s, i, lit) && Ordered(s, lit.end, rest)
      ensures Ordered(s, i, [lit] + rest)
    {
      var ls := [lit] + rest;
      forall k | 0 <= k < |ls|
        ensures InScript(s, i, ls[k])
      {
        assert k > 0 ==> InScript(s, lit.end, rest[k - 1]);
      }
      forall k | 0 < k < |ls|
        ensures ls[k - 1].end <= ls[k].start
      {
        assert InScript(s, lit.end, rest[k - 1]);
      }
    }

    lemma {:induction false} LiteralsAreOrdered(s: string, i: nat)
      requires i <= |s|
      ensures Ordered(s, i, Literals(s, i))
      decreases |s| - i
    {
      if i < |s| {
        match LiteralAt(s, i)
        case Some(lit) =>
          LiteralsAreOrdered(s, lit.end);
          OrderedCons(s, i, lit, Literals(s, lit.end));
        case None =>
          LiteralsAreOrdered(s, i + 1);
          var ls := Literals(s, i);
          assert forall k :: 0 <= k < |ls| ==> InScript(s, i + 1, ls[k]);
      }
    }

    lemma {:induction false} LiteralBody(s: string, i: nat, lit: Literal)
      requires i < |s| && LiteralAt(s, i) == Some(lit)
      ensures IsQuote(s[i]) && FindClose(s, s[i], i + 1) == Some(lit.end - 1)
      ensures decode(s[i], s[i + 1..lit.end - 1]) == Some(lit.value)
    {
      var k := FindClose(s, s[i], i + 1).value;
      DecodedParts(i, k + 1, decode(s[i], s[i + 1..k]), lit);
    }

    /** A table entry is the JavaScript value of its literal, unless that has a lone surrogate escape. */
    lemma LiteralHasJsValue(s: string, i: nat, lit: Literal)
      requires ReadsJson() && i < |s| && LiteralAt(s, i) == Some(lit)
      ensures var body := s[i + 1..lit.end - 1];
        JsValue(s[i], body) == Some(lit.value) <==> PairedSurrogates(JsonText(s[i], body))
    {
      LiteralBody(s, i, lit);
      BodyIsWellQuoted(s, s[i], i + 1);
      DecodeIsJsValue(s[i], s[i + 1..lit.end - 1]);
    }

    method FindLiteral(script: string, i: nat) returns (r: Option<Literal>)
      requires ReadsJson() && i < |script|
      ensures r == LiteralAt(script, i)
    {
      var quote := script[i];
      if quote != '\'' && quote != '\"' {
        return None;
      }
      var close, body := FindQuote(script, quote, i + 1);
      if close.None? {
        return None;
      }
      var value := DecodeJsString(quote, body);
      if value.None? {
        return None;
      }
      r := Some(Literal(i, close.value + 1, value.value));
    }

    lemma ScanStep(done: seq<Literal>, s: string, i: nat)
      requires i < |s|
      ensures match LiteralAt(s, i)
        case None => Literals(s, i) == Literals(s, i + 1)
        case Some(lit) => done + Literals(s, i) == (done + [lit]) + Literals(s, lit.end)
    {
      if LiteralAt(s, i).Some? {
        var lit := LiteralAt(s, i).value;
        ConcatAssoc(done, [lit], Literals(s, lit.end));
      }
    }

    method Scan(script: string) returns (literals: seq<Literal>)
      requires ReadsJson()
      ensures literals == Literals(script, 0)
    {
      literals := [];
      var i := 0;
      while i < |script|
        invariant 0 <= i <= |script|
        invariant literals + Literals(script, i) == Literals(script, 0)
      {
        var lit := FindLiteral(script, i);
        ScanStep(literals, script, i);
        match lit
        case None => i := i + 1;
        case Some(l) =>
          literals := literals + [l];
          i := l.end;
      }
    }

    // ----- the rewritten body -----

    function Rewritten(s: string, i: nat, tName: string, index: map<JsString, nat>): string
      requires i <= |s|
      decreases |s| - i
    {
      if i == |s| then ""
      else match LiteralAt(s, i)
        case Some(lit) =>
          Ref(tName, if lit.value in index then index[lit.value] else 0) + Rewritten(s, lit.end, tName, index)
        case None => [s[i]] + Rewritten(s, i + 1, tName, index)
    }

    /** Up to the next literal the text is copied. */
    lemma {:induction false} CopyGap(s: string, i: nat, start: nat, tName: string, index: map<JsString, nat>)
      requires i <= start <= |s|
      requires NoLiteralIn(s, i, start)
      ensures Rewritten(s, i, tName, index) == s[i..start] + Rewritten(s, start, tName, index)
      decreases start - i
    {
      if i < start {
        CopyGap(s, i + 1, start, tName, index);
        assert s[i..start] == [s[i]] + s[i + 1..start];
        ConcatAssoc([s[i]], s[i + 1..start], Rewritten(s, start, tName, index));
      } else {
        assert s[i..start] == [];
      }
    }

    /** Where the next literal starts. */
    function NextStart(s: string, i: nat): (r: nat)
      requires i <= |s|
      ensures i <= r <= |s|
      ensures NoLiteralIn(s, i, r)
      ensures r < |s| ==> LiteralAt(s, r).Some?
      decreases |s| - i
    {
      if i == |s| || LiteralAt(s, i).Some? then i else NextStart(s, i + 1)
    }

    /** ls are the literals whose first starts at start. */
    predicate StartsAt(s: string, start: nat, ls: seq<Literal>) {
      if start >= |s| then ls == []
      else match LiteralAt(s, start)
        case Some(lit) => ls == [lit] + Literals(s, lit.end)
        case None => false
    }

    lemma {:induction false} FirstLiteral(s: string, i: nat)
      requires i <= |s|
      ensures StartsAt(s, NextStart(s, i), Literals(s, i))
      decreases |s| - i
    {
      if i < |s| && LiteralAt(s, i).None? {
        FirstLiteral(s, i + 1);
        assert NextStart(s, i) == NextStart(s, i + 1) && Literals(s, i) == Literals(s, i + 1);
      }
    }

    method Rewrite(script: string, literals: seq<Literal>, tName: string, index: map<JsString, nat>)
      returns (out: string)
      requires literals == Literals(script, 0)
      requires forall k :: 0 <= k < |literals| ==> literals[k].value in index
      ensures out == Rewritten(script, 0, tName, index)
    {
      out := "";
      var last := 0;
      for n := 0 to |literals|
        invariant 0 <= last <= |script|
        invariant Literals(script, last) == literals[n..]
        invariant out + Rewritten(script, last, tName, index) == Rewritten(script, 0, tName, index)
      {
        var lit := literals[n];
        ghost var start := NextStart(script, last);
        FirstLiteral(script, last);
        assert literals[n..][0] == lit && literals[n..][1..] == literals[n + 1..];
        assert LiteralAt(script, start) == Some(lit);
        CopyGap(script, last, start, tName, index);
        var gap, ref := script[last..lit.start], Ref(tName, index[lit.value]);
        ConcatFour(out, gap, ref, Rewritten(script, lit.end, tName, index));
        out := out + gap;
        out := out + ref;
        last := lit.end;
      }
      FirstLiteral(script, last);
      CopyGap(script, last, |script|, tName, index);
      out := out + script[last..];
    }

    /** The whole function; draw gives the shuffle's draws and tName the drawn table name. */
    method ObfuscateStrings(script: string, draw: nat -> nat, tName: string)
      returns (out: Output, ghost index: map<JsString, nat>)
      requires ReadsJson() && forall i :: draw(i) <= i
      ensures Literals(script, 0) == [] ==> out == Unchanged(script)
      ensures Literals(script, 0) != [] ==>
                && out.Tabled? && out.tName == tName
                && NoDuplicates(out.table) && Indexes(index, out.table, Literals(script, 0))
                && out.body == Rewritten(script, 0, tName, index)
    {
      var literals := Scan(script);
      index := map[];
      if |literals| == 0 {
        return Unchanged(script), index;
      }
      var table, final := BuildTable(literals, draw);
      index := final;
      var body := Rewrite(script, literals, tName, final);
      out := Tabled(tName, table, body);
    }

    // ----- meaning -----

    /** The piece at i, and where it ends. */
    function PieceAt(s: string, i: nat): (r: (Piece, nat))
      requires i < |s|
      ensures i < r.1 <= |s|
    {
      match CloseAt(s, i)
      case None => (Ch(s[i]), i + 1)
      case Some(k) => (Quoted(s[i..k + 1], decode(s[i], s[i + 1..k])), k + 1)
    }

    function Meaning(s: string, i: nat): seq<Piece>
      requires i <= |s|
      decreases |s| - i
    {
      if i == |s| then [] else [PieceAt(s, i).0] + Meaning(s, PieceAt(s, i).1)
    }

    /**
     * Reading the rewritten text: a reference stands for its table entry, unless the character before it
     * makes it part of a longer identifier; everything else is read as in the source.
     */
    function Resolve(t: string, tName: string, table: seq<JsString>, glued: bool): seq<Piece>
      requires tName != ""
      decreases |t|
    {
      if t == "" then []
      else
        var r := RefAt(t, tName, |table|);
        if !glued && r.Some? then [Str(table[r.value.1])] + Resolve(t[r.value.0..], tName, table, false)
        else
          var (p, end) := PieceAt(t, 0);
          [p] + Resolve(t[end..], tName, table, Glues(p))
    }

    /** No decoded literal directly follows an identifier character, as in return'x'. */
    predicate NothingGlued(s: string, i: nat, glued: bool)
      requires i <= |s|
      decreases |s| - i
    {
      i < |s| ==>
        var (p, end) := PieceAt(s, i);
        (p.Str? ==> !glued) && NothingGlued(s, end, Glues(p))
    }

    /** The scanner finds no literal from i up to end. */
    predicate NoLiteralIn(s: string, i: nat, end: nat)
      requires end <= |s|
    {
      forall j :: i <= j < end ==> LiteralAt(s, j).None?
    }

    /** Inside a literal that does not decode, its closing quote included, the scanner finds no other. */
    predicate NothingInside(s: string, i: nat)
      requires i <= |s|
      decreases |s| - i
    {
      i < |s| ==>
        var (p, end) := PieceAt(s, i);
        (p.Raw? ==> NoLiteralIn(s, i, end)) && NothingInside(s, end)
    }

    /** No piece of the name from its second character on can run into a reference. */
    lemma {:induction false} NameStaysInGap(s: string, i: nat, tName: string, index: map<JsString, nat>, m: nat)
      requires i <= |s| && IsTableName(tName) && 0 < m <= |tName|
      requires tName[m..] <= Rewritten(s, i, tName, index)
      ensures tName[m..] <= s[i..]
      decreases |tName| - m
    {
      if m < |tName| {
        var r := Rewritten(s, i, tName, index);
        assert r[0] == tName[m..][0] == tName[m];
        assert i < |s|;
        match LiteralAt(s, i)
        case Some(lit) => assert false;
        case None =>
          assert r[1..] == Rewritten(s, i + 1, tName, index);
          assert tName[m..][1..] == tName[m + 1..];
          NameStaysInGap(s, i + 1, tName, index, m + 1);
          assert s[i..] == [s[i]] + s[i + 1..];
          assert tName[m..] == [tName[m]] + tName[m + 1..];
      }
    }

    lemma {:induction false} NameBeginsInGap(s: string, i: nat, tName: string, index: map<JsString, nat>)
      requires i < |s| && IsTableName(tName) && LiteralAt(s, i).None?
      requires tName <= Rewritten(s, i, tName, index)
      ensures Occurs(tName, s)
    {
      var r := Rewritten(s, i, tName, index);
      assert r[0] == tName[0] && r[1..] == Rewritten(s, i + 1, tName, index);
      assert tName[1..] <= r[1..];
      NameStaysInGap(s, i + 1, tName, index, 1);
      assert s[i..] == [s[i]] + s[i + 1..];
      assert tName == [tName[0]] + tName[1..];
      assert tName <= s[i..];
    }

    lemma {:induction false} NoFalseReference(s: string, i: nat, tName: string, index: map<JsString, nat>)
      requires i < |s| && IsTableName(tName) && !Occurs(tName, s) && LiteralAt(s, i).None?
      ensures !(tName <= Rewritten(s, i, tName, index))
    {
      if tName <= Rewritten(s, i, tName, index) {
        NameBeginsInGap(s, i, tName, index);
      }
    }

    // ----- an open quote stays open -----

    lemma {:induction false} OpenAfterLiteral(s: string, i: nat, lit: Literal, q: char)
      requires i < |s| && LiteralAt(s, i) == Some(lit) && IsQuote(q) && FindClose(s, q, i + 1).None?
      ensures FindClose(s, q, lit.end).None?
    {
      LiteralBody(s, i, lit);
      OpenPastLiteral(s, i, lit.end - 1, q);
    }

    /** An open quote finds nothing to close it in the rewritten rest either. */
    lemma {:induction false} StaysOpen(s: string, i: nat, tName: string, index: map<JsString, nat>, q: char)
      requires i <= |s| && IsTableName(tName) && IsQuote(q) && FindClose(s, q, i).None?
      ensures FindClose(Rewritten(s, i, tName, index), q, 0).None?
      decreases |s| - i
    {
      if i < |s| {
        match LiteralAt(s, i)
        case Some(lit) =>
          QuoteDoesNotEscape(s, i);
          OpenAfterLiteral(s, i, lit, q);
          StaysOpen(s, lit.end, tName, index, q);
          var place := if lit.value in index then index[lit.value] else 0;
          RefThenOpen(tName, place, Rewritten(s, lit.end, tName, index), q);
        case None =>
          if EscapesNext(s, i) {
            StaysOpenAfterEscape(s, i, tName, index, q);
          } else {
            StaysOpen(s, i + 1, tName, index, q);
            NoNewEscape(s, i, tName, index);
            CharThenOpen(s[i], Rewritten(s, i + 1, tName, index), q);
          }
      }
    }

    lemma {:induction false} StaysOpenAfterEscape(s: string, i: nat, tName: string, index: map<JsString, nat>, q: char)
      requires i < |s| && IsTableName(tName) && IsQuote(q) && FindClose(s, q, i).None? && EscapesNext(s, i)
      ensures FindClose([s[i]] + Rewritten(s, i + 1, tName, index), q, 0).None?
      decreases |s| - i, 0
    {
      match LiteralAt(s, i + 1)
      case Some(lit) =>
        OpenAfterLiteral(s, i + 1, lit, q);
        StaysOpen(s, lit.end, tName, index, q);
        EscapedRef(tName, if lit.value in index then index[lit.value] else 0, Rewritten(s, lit.end, tName, index), q);
        assert s[i] == '\\';
      case None =>
        StaysOpen(s, i + 2, tName, index, q);
        EscapedChar(s[i + 1], Rewritten(s, i + 2, tName, index), q);
        assert s[i] == '\\' && Rewritten(s, i + 1, tName, index) == [s[i + 1]] + Rewritten(s, i + 2, tName, index);
    }

    lemma {:induction false} NoNewEscape(s: string, i: nat, tName: string, index: map<JsString, nat>)
      requires i < |s| && !EscapesNext(s, i)
      ensures !EscapesNext([s[i]] + Rewritten(s, i + 1, tName, index), 0)
    {
      if s[i] == '\\' && i + 1 < |s| {
        assert s[i + 1] == '\n' && LiteralAt(s, i + 1).None?;
        assert Rewritten(s, i + 1, tName, index)[0] == '\n';
      }
    }

    // ----- the output means what the source means -----

    lemma LiteralIsStr(s: string, i: nat)
      requires i < |s|
      ensures var (p, end) := PieceAt(s, i);
        && (LiteralAt(s, i).Some? <==> p.Str?)
        && (p.Str? ==> LiteralAt(s, i).value == Literal(i, end, p.v))
    {
    }

    predicate TableHolds(s: string, i: nat, index: map<JsString, nat>, table: seq<JsString>)
      requires i <= |s|
    {
      Indexes(index, table, Literals(s, i))
    }

    lemma {:induction false} SkipPlain(s: string, i: nat, end: nat)
      requires i <= end <= |s| && NoLiteralIn(s, i, end)
      ensures Literals(s, i) == Literals(s, end)
      decreases end - i
    {
      if i < end {
        assert LiteralAt(s, i).None?;
        SkipPlain(s, i + 1, end);
      }
    }

    /** Reading the output from the place where the source is at i, next to what came before. */
    predicate Agrees(s: string, i: nat, tName: string, index: map<JsString, nat>, table: seq<JsString>, glued: bool)
      requires i <= |s| && tName != ""
    {
      Resolve(Rewritten(s, i, tName, index), tName, table, glued) == Meaning(s, i)
    }

    lemma {:induction false} ResolveStep(t: string, rest: string, p: Piece, end: nat, tName: string,
                                         table: seq<JsString>, glued: bool)
      requires t != "" && tName != "" && (glued || RefAt(t, tName, |table|).None?)
      requires PieceAt(t, 0) == (p, end) && t[end..] == rest
      ensures Resolve(t, tName, table, glued) == [p] + Resolve(rest, tName, table, Glues(p))
    {
    }

    lemma {:induction false} MeaningStep(s: string, i: nat, p: Piece, end: nat)
      requires i < |s| && PieceAt(s, i) == (p, end)
      ensures Meaning(s, i) == [p] + Meaning(s, end)
    {
    }

    lemma QuoteFree(t: string)
      requires t != "" && !IsQuote(t[0])
      ensures PieceAt(t, 0) == (Ch(t[0]), 1)
    {
    }

    /** A character, or a quote that nothing closes, reads the same in the output. */
    lemma CharacterStays(s: string, i: nat, tName: string, index: map<JsString, nat>)
      requires i < |s| && IsTableName(tName) && CloseAt(s, i).None?
      ensures PieceAt([s[i]] + Rewritten(s, i + 1, tName, index), 0) == (Ch(s[i]), 1)
    {
      var rest := Rewritten(s, i + 1, tName, index);
      if IsQuote(s[i]) {
        StaysOpen(s, i + 1, tName, index, s[i]);
        FindCloseSuffix([s[i]], rest, s[i], 1);
      }
    }

    lemma NotClosed(s: string, i: nat)
      requires i < |s|
      ensures PieceAt(s, i).0.Ch? <==> CloseAt(s, i).None?
      ensures CloseAt(s, i).None? ==> PieceAt(s, i) == (Ch(s[i]), i + 1) && LiteralAt(s, i).None?
    {
    }

    lemma AgreesAtLiteral(s: string, i: nat, tName: string, index: map<JsString, nat>, table: seq<JsString>,
                          glued: bool)
      requires i < |s| && IsTableName(tName) && TableHolds(s, i, index, table) && PieceAt(s, i).0.Str?
      ensures var end := PieceAt(s, i).1;
        && TableHolds(s, end, index, table)
        && (Agrees(s, i, tName, index, table, glued) <==> !glued && Agrees(s, end, tName, index, table, false))
    {
      var (p, end) := PieceAt(s, i);
      LiteralIsStr(s, i);
      var lit := LiteralAt(s, i).value;
      TailIndexes(lit, Literals(s, end), index, table);
      var k, rest := index[p.v], Rewritten(s, end, tName, index);
      var t := Ref(tName, k) + rest;
      RefIsRead(tName, k, rest, |table|);
      assert t == Rewritten(s, i, tName, index);
      if glued {
        QuoteFree(t);
        PrependIff(PieceAt(t, 0).0, Str(p.v), Resolve(t[1..], tName, table, Glues(PieceAt(t, 0).0)), Meaning(s, end));
      } else {
        PrependIff(Str(table[k]), Str(p.v), Resolve(rest, tName, table, false), Meaning(s, end));
      }
    }

    lemma AgreesAtCharacter(s: string, i: nat, tName: string, index: map<JsString, nat>, table: seq<JsString>,
                            glued: bool)
      requires i < |s| && IsTableName(tName) && !Occurs(tName, s) && CloseAt(s, i).None?
      ensures PieceAt(s, i) == (Ch(s[i]), i + 1)
      ensures Literals(s, i) == Literals(s, i + 1)
      ensures var now, next := Agrees(s, i, tName, index, table, glued), IsIdentifierPart(s[i]);
        now <==> Agrees(s, i + 1, tName, index, table, next)
    {
      NotClosed(s, i);
      CharacterStays(s, i, tName, index);
      NoFalseReference(s, i, tName, index);
      var p, rest := Ch(s[i]), Rewritten(s, i + 1, tName, index);
      AppendParts([s[i]], rest);
      ResolveStep([s[i]] + rest, rest, p, 1, tName, table, glued);
      MeaningStep(s, i, p, i + 1);
      PrependIff(p, p, Resolve(rest, tName, table, Glues(p)), Meaning(s, i + 1));
    }

    lemma PieceFrom(s: string, i: nat, k: nat, text: string, body: string)
      requires i < |s| && CloseAt(s, i) == Some(k) && text == s[i..k + 1] && body == s[i + 1..k]
      ensures PieceAt(s, i) == (Quoted(text, decode(s[i], body)), k + 1)
    {
    }

    /** A closed literal reads the same wherever its text stands. */
    lemma PieceMoves(s: string, i: nat, k: nat, rest: string)
      requires i < |s| && CloseAt(s, i) == Some(k)
      ensures PieceAt(s, i).1 == k + 1
      ensures PieceAt(s[i..k + 1] + rest, 0) == (PieceAt(s, i).0, k + 1 - i)
    {
      FindClosePrefix(s, i, rest, s[i], i + 1);
      PieceFrom(s, i, k, s[i..k + 1], s[i + 1..k]);
      SlicesOfPrefix(s, i, k, rest);
      PieceFrom(s[i..k + 1] + rest, 0, k - i, s[i..k + 1], s[i + 1..k]);
    }

    lemma {:induction false} ResolveCopied(gap: string, rest: string, p: Piece, tName: string, table: seq<JsString>,
                                           glued: bool)
      requires gap != "" && IsQuote(gap[0]) && IsTableName(tName) && PieceAt(gap + rest, 0) == (p, |gap|) && p.Raw?
      ensures Resolve(gap + rest, tName, table, glued) == [p] + Resolve(rest, tName, table, false)
    {
      AppendParts(gap, rest);
      QuoteIsNoReference(gap + rest, tName, |table|);
      ResolveStep(gap + rest, rest, p, |gap|, tName, table, glued);
    }

    lemma {:induction false} ResolveMoved(s: string, i: nat, k: nat, rest: string, tName: string, table: seq<JsString>,
                                          glued: bool)
      requires i < |s| && IsTableName(tName) && CloseAt(s, i) == Some(k) && PieceAt(s, i).0.Raw?
      ensures Resolve(s[i..k + 1] + rest, tName, table, glued)
           == [PieceAt(s, i).0] + Resolve(rest, tName, table, false)
    {
      PieceMoves(s, i, k, rest);
      ResolveCopied(s[i..k + 1], rest, PieceAt(s, i).0, tName, table, glued);
    }

    /** A literal that does not decode is copied whole when nothing inside it is taken for another. */
    lemma {:induction false} ResolveRaw(s: string, i: nat, k: nat, tName: string, index: map<JsString, nat>,
                                        table: seq<JsString>, glued: bool)
      requires i < |s| && IsTableName(tName) && CloseAt(s, i) == Some(k) && NoLiteralIn(s, i, k + 1)
      requires PieceAt(s, i).0.Raw?
      ensures Resolve(Rewritten(s, i, tName, index), tName, table, glued)
           == [PieceAt(s, i).0] + Resolve(Rewritten(s, k + 1, tName, index), tName, table, false)
    {
      CopyGap(s, i, k + 1, tName, index);
      ResolveMoved(s, i, k, Rewritten(s, k + 1, tName, index), tName, table, glued);
    }

    lemma {:induction false} AgreesAtRaw(s: string, i: nat, k: nat, tName: string, index: map<JsString, nat>,
                                         table: seq<JsString>, glued: bool)
      requires i < |s| && IsTableName(tName) && CloseAt(s, i) == Some(k) && NoLiteralIn(s, i, k + 1)
      requires PieceAt(s, i) == (PieceAt(s, i).0, k + 1) && PieceAt(s, i).0.Raw?
      ensures Agrees(s, i, tName, index, table, glued) <==> Agrees(s, k + 1, tName, index, table, false)
    {
      var p := PieceAt(s, i).0;
      ResolveRaw(s, i, k, tName, index, table, glued);
      MeaningStep(s, i, p, k + 1);
      PrependIff(p, p, Resolve(Rewritten(s, k + 1, tName, index), tName, table, false), Meaning(s, k + 1));
    }

    lemma QuotedText(s: string, i: nat)
      requires i < |s|
      ensures PieceAt(s, i).0.Raw? ==> PieceAt(s, i).0.text == s[i..PieceAt(s, i).1]
    {
    }

    /** If something is, the output's first piece is another one. */
    lemma DiffersAtRaw(s: string, i: nat, tName: string, index: map<JsString, nat>, table: seq<JsString>, glued: bool)
      requires i < |s| && IsTableName(tName) && PieceAt(s, i).0.Raw? && !NoLiteralIn(s, i, PieceAt(s, i).1)
      ensures !Agrees(s, i, tName, index, table, glued)
    {
      RawCloses(s, i);
      var (p, end) := PieceAt(s, i);
      var t := Rewritten(s, i, tName, index);
      FirstLiteralIsRewritten(s, i, end, tName, index);
      QuoteIsNoReference(t, tName, |table|);
      var (q, stop) := PieceAt(t, 0);
      ResolveStep(t, t[stop..], q, stop, tName, table, glued);
      MeaningStep(s, i, p, end);
      QuotedText(t, 0);
      QuotedText(s, i);
      PrependIff(q, p, Resolve(t[stop..], tName, table, Glues(q)), Meaning(s, end));
    }

    /** At the first literal inside, the output has a table name where the source has a quote. */
    lemma {:induction false} FirstLiteralIsRewritten(s: string, i: nat, end: nat, tName: string,
                                                     index: map<JsString, nat>)
      requires i < end <= |s| && IsTableName(tName) && IsQuote(s[i]) && LiteralAt(s, i).None? && !NoLiteralIn(s, i, end)
      ensures var t := Rewritten(s, i, tName, index);
        && t != "" && t[0] == s[i]
        && forall stop :: 0 <= stop <= |t| ==> t[0..stop] != s[i..end]
    {
      var j := NextStart(s, i);
      CopyGap(s, i, j, tName, index);
      LiteralIsQuoted(s, j, tName, index);
      OtherTextInGap(s, i, j, end, Rewritten(s, j, tName, index));
    }

    lemma {:induction false} LiteralIsQuoted(s: string, j: nat, tName: string, index: map<JsString, nat>)
      requires j < |s| && LiteralAt(s, j).Some? && tName != ""
      ensures IsQuote(s[j])
      ensures Rewritten(s, j, tName, index) != "" && Rewritten(s, j, tName, index)[0] == tName[0]
    {
    }

    /** Nothing at this piece changes the reading. */
    predicate KeptAt(s: string, i: nat, glued: bool)
      requires i < |s|
    {
      var (p, end) := PieceAt(s, i);
      (p.Str? ==> !glued) && (p.Raw? ==> NoLiteralIn(s, i, end))
    }

    predicate Kept(s: string, i: nat, glued: bool)
      requires i <= |s|
    {
      NothingGlued(s, i, glued) && NothingInside(s, i)
    }

    lemma {:induction false} KeptStep(s: string, i: nat, glued: bool)
      requires i < |s|
      ensures Kept(s, i, glued) <==> KeptAt(s, i, glued) && Kept(s, PieceAt(s, i).1, Glues(PieceAt(s, i).0))
    {
    }

    lemma {:induction false} RawCloses(s: string, i: nat)
      requires i < |s| && PieceAt(s, i).0.Raw?
      ensures CloseAt(s, i) == Some(PieceAt(s, i).1 - 1) && IsQuote(s[i]) && LiteralAt(s, i).None?
    {
    }

    lemma {:induction false} AgreesStep(s: string, i: nat, tName: string, index: map<JsString, nat>,
                                        table: seq<JsString>,
                                        glued: bool)
      requires i < |s| && IsTableName(tName) && !Occurs(tName, s) && TableHolds(s, i, index, table)
      ensures var (p, end) := PieceAt(s, i);
        && (KeptAt(s, i, glued) ==> TableHolds(s, end, index, table))
        && (Agrees(s, i, tName, index, table, glued) <==>
            KeptAt(s, i, glued) && Agrees(s, end, tName, index, table, Glues(p)))
    {
      var (p, end) := PieceAt(s, i);
      if p.Str? {
        AgreesAtLiteral(s, i, tName, index, table, glued);
      } else if p.Ch? {
        NotClosed(s, i);
        AgreesAtCharacter(s, i, tName, index, table, glued);
      } else {
        RawCloses(s, i);
        if NoLiteralIn(s, i, end) {
          SkipPlain(s, i, end);
          AgreesAtRaw(s, i, end - 1, tName, index, table, glued);
        } else {
          DiffersAtRaw(s, i, tName, index, table, glued);
        }
      }
    }

    lemma {:induction false} ResolveAgrees(s: string, i: nat, tName: string, index: map<JsString, nat>,
                                           table: seq<JsString>,
                                           glued: bool)
      requires i <= |s| && IsTableName(tName) && !Occurs(tName, s) && TableHolds(s, i, index, table)
      ensures Agrees(s, i, tName, index, table, glued) <==> Kept(s, i, glued)
      decreases |s| - i
    {
      if i < |s| {
        AgreesStep(s, i, tName, index, table, glued);
        KeptStep(s, i, glued);
        if KeptAt(s, i, glued) {
          ResolveAgrees(s, PieceAt(s, i).1, tName, index, table, Glues(PieceAt(s, i).0));
        }
      }
    }

    /**
     * The rewritten text means what the source means, piece for piece, exactly when no literal is glued to an
     * identifier and none is found inside a literal that does not decode; the table name only has to be new to
     * the script.
     */
    lemma {:induction false} ObfuscationPreservesMeaning(script: string, tName: string, index: map<JsString, nat>,
                                                         table: seq<JsString>)
      requires IsTableName(tName) && !Occurs(tName, script) && Indexes(index, table, Literals(script, 0))
      ensures Resolve(Rewritten(script, 0, tName, index), tName, table, false) == Meaning(script, 0)
         <==> NothingGlued(script, 0, false) && NothingInside(script, 0)
    {
      ResolveAgrees(script, 0, tName, index, table, false);
    }

    /** A literal right after a name is glued to it. */
    lemma {:induction false} GluedAfterName(s: string, i: nat, j: nat, glued: bool)
      requires i < j < |s| && (forall m :: i <= m < j ==> !IsQuote(s[m]))
      requires IsIdentifierPart(s[j - 1]) && PieceAt(s, j).0.Str?
      ensures !NothingGlued(s, i, glued)
      decreases j - i
    {
      assert PieceAt(s, i) == (Ch(s[i]), i + 1);
      if i + 1 < j {
        GluedAfterName(s, i + 1, j, IsIdentifierPart(s[i]));
      }
    }

    lemma {:induction false} NewName(tName: string, s: string)
      requires IsTableName(tName) && forall m :: 0 <= m < |s| ==> s[m] != '_'
      ensures !Occurs(tName, s)
    {
      forall i | 0 <= i <= |s|
        ensures !(tName <= s[i..])
      {
        assert i < |s| ==> s[i..][0] == s[i] != tName[0];
      }
    }
  }

  // ----- the two ways to lose the meaning -----

  lemma OneCharDecodes(quote: char, c: char)
    requires IsQuote(quote) && 'a' <= c <= 'z'
    ensures Decode(quote, [c]) == Some([c as int])
  {
    var t := [c];
    assert t[1..] == "" && t[..1] == t;
    assert Safe(t) == t + "" == t && UnescapeSingle(t) == t;
    assert JsonUnquote("") == Some([]) && JsonUnquote(t) == Prepend(Units(c), Some([]));
    assert Units(c) == [c as int] && Units(c) + [] == [c as int];
  }

  lemma OneValueIndexed(i: nat, end: nat, v: JsString)
    ensures Indexes(map[v := 0], [v], [Literal(i, end, v)])
  {
  }

  const GLUED_SCRIPT := "return'x'"

  lemma GluedLiteral(sc: Scanner)
    requires sc.ReadsJson()
    ensures sc.LiteralAt(GLUED_SCRIPT, 6) == Some(Literal(6, 9, [0x78]))
    ensures sc.PieceAt(GLUED_SCRIPT, 6) == (Str([0x78]), 9)
    ensures forall j :: 0 <= j < 6 ==> !IsQuote(GLUED_SCRIPT[j])
  {
    var s := GLUED_SCRIPT;
    assert FindClose(s, '\'', 8) == Some(8) && FindClose(s, '\'', 7) == Some(8);
    assert s[7..8] == "x";
    OneCharDecodes('\'', 'x');
    assert sc.decode('\'', "x") == Some([0x78]);
  }

  /** return'x' becomes one identifier and an index: the string is gone. */
  lemma GluedExample(sc: Scanner, tName: string)
    requires sc.ReadsJson() && IsTableName(tName)
    ensures var s, index := GLUED_SCRIPT, map[[0x78] := 0];
      && sc.Rewritten(s, 0, tName, index) == "return" + Ref(tName, 0)
      && sc.Resolve(sc.Rewritten(s, 0, tName, index), tName, [[0x78]], false) != sc.Meaning(s, 0)
  {
    var s, index := GLUED_SCRIPT, map[[0x78] := 0];
    GluedLiteral(sc);
    assert sc.NoLiteralIn(s, 0, 6);
    sc.CopyGap(s, 0, 6, tName, index);
    assert s[0..6] == "return" && sc.Rewritten(s, 9, tName, index) == "";
    assert sc.Rewritten(s, 6, tName, index) == Ref(tName, 0) + "" == Ref(tName, 0);
    sc.SkipPlain(s, 0, 6);
    assert sc.Literals(s, 9) == [] && sc.Literals(s, 0) == [Literal(6, 9, [0x78])] + [];
    sc.NewName(tName, s);
    sc.GluedAfterName(s, 0, 6, false);
    OneValueIndexed(6, 9, [0x78]);
    sc.ObfuscationPreservesMeaning(s, tName, index, [[0x78]]);
  }

  const UNDECODED_SCRIPT := "'\t\"b\"'"

  lemma UndecodedLiteral(sc: Scanner)
    requires sc.ReadsJson()
    ensures sc.PieceAt(UNDECODED_SCRIPT, 0) == (Raw(UNDECODED_SCRIPT), 6)
    ensures sc.LiteralAt(UNDECODED_SCRIPT, 0).None? && sc.LiteralAt(UNDECODED_SCRIPT, 1).None?
    ensures sc.LiteralAt(UNDECODED_SCRIPT, 2) == Some(Literal(2, 5, [0x62]))
    ensures sc.LiteralAt(UNDECODED_SCRIPT, 5).None?
  {
    var s := UNDECODED_SCRIPT;
    UndecodedCloses();
    TabDoesNotDecode();
    OneCharDecodes('\"', 'b');
    assert sc.decode('\"', "b") == Some([0x62]) && sc.decode('\'', "\t\"b\"").None?;
  }

  lemma UndecodedCloses()
    ensures var s := UNDECODED_SCRIPT;
      && FindClose(s, '\'', 1) == Some(5) && FindClose(s, '\'', 6).None? && FindClose(s, '\"', 3) == Some(4)
      && s[1..5] == "\t\"b\"" && s[0..6] == s && s[3..4] == "b"
  {
    var s := UNDECODED_SCRIPT;
    assert FindClose(s, '\'', 5) == Some(5) && FindClose(s, '\'', 4) == Some(5) && FindClose(s, '\'', 3) == Some(5);
    assert FindClose(s, '\'', 2) == Some(5) && FindClose(s, '\"', 4) == Some(4);
  }

  lemma TabDoesNotDecode()
    ensures Decode('\'', "\t\"b\"").None?
    ensures JsValue('\'', "\t\"b\"") == Some([9, 0x22, 0x62, 0x22])
  {
    var t := "\t\"b\"";
    assert t[1..] == "\"b\"" && "\"b\""[1..] == "b\"" && "b\""[1..] == "\"" && "\""[1..] == "";
    assert Safe(t) == t[..1] + Safe(t[1..]) && Safe(t)[0] == '\t';
    assert JsonText('\'', t)[0] == '\t';
    assert Units('\t') == [9] && Units('\"') == [0x22] && Units('b') == [0x62] && [0x22] + [] == [0x22];
    assert JsValue('\'', "\"") == Prepend([0x22], Some([])) == Some([0x22]);
    assert JsValue('\'', "b\"") == Prepend([0x62], Some([0x22])) == Some([0x62] + [0x22]);
    assert JsValue('\'', "\"b\"") == Prepend([0x22], Some([0x62] + [0x22])) == Some([0x22] + ([0x62] + [0x22]));
    assert [9] + ([0x22] + ([0x62] + [0x22])) == [9, 0x22, 0x62, 0x22];
  }

  /** A tab keeps the outer literal from decoding, so the quotes inside it are rewritten. */
  lemma UndecodedExample(sc: Scanner, tName: string)
    requires sc.ReadsJson() && IsTableName(tName)
    ensures var s, index := UNDECODED_SCRIPT, map[[0x62] := 0];
      && sc.Rewritten(s, 0, tName, index) == "'\t" + Ref(tName, 0) + "'"
      && sc.NothingGlued(s, 0, false)
      && sc.Resolve(sc.Rewritten(s, 0, tName, index), tName, [[0x62]], false) != sc.Meaning(s, 0)
  {
    var s, index := UNDECODED_SCRIPT, map[[0x62] := 0];
    UndecodedLiteral(sc);
    UndecodedIsRewritten(sc, tName);
    UndecodedLiterals(sc);
    UndecodedIsNotKept(sc);
    OneValueIndexed(2, 5, [0x62]);
    sc.NewName(tName, s);
    sc.ObfuscationPreservesMeaning(s, tName, index, [[0x62]]);
  }

  lemma UndecodedLiterals(sc: Scanner)
    requires sc.ReadsJson()
    ensures sc.Literals(UNDECODED_SCRIPT, 0) == [Literal(2, 5, [0x62])]
  {
    var s := UNDECODED_SCRIPT;
    UndecodedLiteral(sc);
    assert sc.NoLiteralIn(s, 0, 2);
    sc.SkipPlain(s, 0, 2);
    assert sc.Literals(s, 6) == [] && sc.Literals(s, 5) == [];
  }

  lemma UndecodedIsNotKept(sc: Scanner)
    requires sc.ReadsJson()
    ensures sc.NothingGlued(UNDECODED_SCRIPT, 0, false) && !sc.NothingInside(UNDECODED_SCRIPT, 0)
  {
    UndecodedLiteral(sc);
    assert sc.NothingGlued(UNDECODED_SCRIPT, 6, false) && !sc.NoLiteralIn(UNDECODED_SCRIPT, 0, 6);
  }

  lemma UndecodedIsRewritten(sc: Scanner, tName: string)
    requires sc.ReadsJson() && IsTableName(tName)
    ensures sc.Rewritten(UNDECODED_SCRIPT, 0, tName, map[[0x62] := 0]) == "'\t" + Ref(tName, 0) + "'"
  {
    var s, index := UNDECODED_SCRIPT, map[[0x62] := 0];
    UndecodedLiteral(sc);
    assert sc.NoLiteralIn(s, 0, 2);
    sc.CopyGap(s, 0, 2, tName, index);
    assert sc.Rewritten(s, 6, tName, index) == "";
    assert sc.Rewritten(s, 5, tName, index) == [s[5]] + "" == "'";
    assert s[0..2] == "'\t" && sc.Rewritten(s, 2, tName, index) == Ref(tName, 0) + "'";
    ConcatAssoc("'\t", Ref(tName, 0), "'");
  }
}
