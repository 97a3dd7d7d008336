/** The hashcash puzzle: checking, searching, and the pairs of format 1 (cap.go). */
module Hashcash {
  import opened Crypto
  import opened HexPrefix
  import opened JsNumber
  import opened Json
  import opened Numerals
  import opened Prng

  predicate PowMatches(s: Suite, salt: string, nonce: string, target: string) {
    HashHasHexPrefix(s.sha(salt + nonce), target)
  }

  /** Solvable by some number whose decimal text the hash accepts. */
  ghost predicate Solves(s: Suite, salt: string, target: string, n: nat) {
    PowMatches(s, salt, Decimal(n), target)
  }

  ghost predicate IsLeastNonce(s: Suite, salt: string, target: string, n: nat) {
    Solves(s, salt, target, n) && forall m: nat :: m < n ==> !Solves(s, salt, target, m)
  }

  /** A nonce below the limit solves the puzzle. */
  ghost predicate SolvableBelow(s: Suite, salt: string, target: string, limit: nat) {
    exists n: nat :: n < limit && Solves(s, salt, target, n)
  }

  /** SolvePoW, up to a limit: the least solution, and none exactly when there is none below the limit. */
  method SolvePow(s: Suite, salt: string, target: string, limit: nat) returns (nonce: Option<nat>)
    ensures nonce.Some? ==> nonce.value < limit && IsLeastNonce(s, salt, target, nonce.value)
    ensures nonce.Some? <==> SolvableBelow(s, salt, target, limit)
  {
    var n := 0;
    while n < limit
      invariant 0 <= n <= limit
      invariant forall m: nat :: m < n ==> !Solves(s, salt, target, m)
    {
      if PowMatches(s, salt, Decimal(n), target) {
        assert Solves(s, salt, target, n);
        return Some(n);
      }
      assert !Solves(s, salt, target, n);
      n := n + 1;
    }
    return None;
  }

  // ----- format 1 -----

  type Pair = (string, string)

  /** The (salt, target) pair of the 1-based index: the widget's PRNG on the concatenated seeds. */
  function PairOf(token: string, index: nat, size: nat, difficulty: nat): Pair {
    (Prng.Prng(Runes(token) + Runes(Decimal(index)), size),
     Prng.Prng(Runes(token) + Runes(Decimal(index)) + Runes("d"), difficulty))
  }

  /** Challenge.Format1Pairs */
  function Format1Pairs(token: string, count: nat, size: nat, difficulty: nat): (ps: seq<Pair>)
    ensures |ps| == count
  {
    if count == 0 then []
    else Format1Pairs(token, count - 1, size, difficulty) + [PairOf(token, count, size, difficulty)]
  }

  predicate SolvesPair(s: Suite, p: Pair, text: string) {
    PowMatches(s, p.0, text, p.1)
  }

  /** Every position carries a solution of its own pair. */
  predicate SolvesAll(s: Suite, ps: seq<Pair>, solutions: seq<string>) {
    |solutions| == |ps| && forall i :: 0 <= i < |ps| ==> SolvesPair(s, ps[i], solutions[i])
  }

  /** Challenge.Format1Pairs, each pair from the resumed hash states of format1Pair. */
  method AllPairs(token: string, count: nat, size: nat, difficulty: nat) returns (ps: seq<Pair>)
    ensures ps == Format1Pairs(token, count, size, difficulty)
  {
    ps := [];
    for i := 0 to count
      invariant ps == Format1Pairs(token, i, size, difficulty)
    {
      var salt, target := Format1Pair(Runes(token), i + 1, size, difficulty);
      ps := ps + [(salt, target)];
    }
  }

  datatype Format1Verdict = Accepted | WrongCount | WrongSolution(index: nat)

  /** The loop of verifyFormat1, over the pairs: the first failing position decides. */
  method VerifyPairs(s: Suite, ps: seq<Pair>, solutions: seq<string>) returns (v: Format1Verdict)
    ensures v.Accepted? <==> SolvesAll(s, ps, solutions)
    ensures v.WrongCount? <==> |solutions| != |ps|
    ensures v.WrongSolution? ==>
              && v.index < |ps| == |solutions|
              && !SolvesPair(s, ps[v.index], solutions[v.index])
              && forall i :: 0 <= i < v.index ==> SolvesPair(s, ps[i], solutions[i])
  {
    if |solutions| != |ps| {
      return WrongCount;
    }
    for i := 0 to |ps|
      invariant forall k :: 0 <= k < i ==> SolvesPair(s, ps[k], solutions[k])
    {
      if !PowMatches(s, ps[i].0, solutions[i], ps[i].1) {
        return WrongSolution(i);
      }
    }
    return Accepted;
  }

  method VerifyFormat1(s: Suite, token: string, count: nat, size: nat, difficulty: nat, solutions: seq<string>)
    returns (v: Format1Verdict)
    ensures v.Accepted? <==> SolvesAll(s, Format1Pairs(token, count, size, difficulty), solutions)
    ensures v.WrongCount? <==> |solutions| != count
  {
    var ps := AllPairs(token, count, size, difficulty);
    v := VerifyPairs(s, ps, solutions);
  }

  /** Nonces the client may post: a float64 carries them exactly. */
  const NONCE_LIMIT := MAX_EXACT + 1

  /** A nonce the pair accepts and a float64 carries. */
  ghost predicate GoodNonce(s: Suite, p: Pair, n: int) {
    0 <= n <= MAX_EXACT && SolvesPair(s, p, Decimal(n))
  }

  ghost predicate PairSolvable(s: Suite, p: Pair) {
    SolvableBelow(s, p.0, p.1, NONCE_LIMIT)
  }

  ghost predicate AllSolvable(s: Suite, ps: seq<Pair>) {
    forall i :: 0 <= i < |ps| ==> PairSolvable(s, ps[i])
  }

  method SolveEach(s: Suite, ps: seq<Pair>) returns (nonces: Option<seq<JsonInt>>)
    ensures nonces.Some? <==> AllSolvable(s, ps)
    ensures nonces.Some? ==>
              |nonces.value| == |ps| && forall i :: 0 <= i < |ps| ==> GoodNonce(s, ps[i], nonces.value[i])
  {
    var found: seq<JsonInt> := [];
    for i := 0 to |ps|
      invariant |found| == i
      invariant forall k :: 0 <= k < i ==> PairSolvable(s, ps[k])
      invariant forall k :: 0 <= k < i ==> GoodNonce(s, ps[k], found[k])
    {
      var n := SolvePow(s, ps[i].0, ps[i].1, NONCE_LIMIT);
      if n.None? {
        assert !PairSolvable(s, ps[i]);
        return None;
      }
      assert Solves(s, ps[i].0, ps[i].1, n.value);
      found := found + [n.value];
    }
    return Some(found);
  }

  function Posted(nonces: seq<JsonInt>): (items: seq<Json>)
    ensures |items| == |nonces|
  {
    seq(|nonces|, i requires 0 <= i < |nonces| => Num(nonces[i]))
  }

  function DecimalsOf(nonces: seq<int>): (texts: seq<string>)
    ensures |texts| == |nonces|
  {
    seq(|nonces|, i requires 0 <= i < |nonces| => Decimal(nonces[i]))
  }

  lemma PostedTexts(nonces: seq<JsonInt>)
    requires forall i :: 0 <= i < |nonces| ==> 0 <= nonces[i] <= MAX_EXACT
    ensures Format1Solutions(Arr(Posted(nonces))) == Some(DecimalsOf(nonces))
  {
    forall i | 0 <= i < |nonces|
      ensures NumberText(Posted(nonces)[i]) == Some(DecimalsOf(nonces)[i])
    {
      NonceSurvivesIff(nonces[i]);
    }
    TextsExist(Posted(nonces), DecimalsOf(nonces));
  }

  lemma DecimalsSolve(s: Suite, ps: seq<Pair>, nonces: seq<int>)
    requires |nonces| == |ps| && forall i :: 0 <= i < |ps| ==> GoodNonce(s, ps[i], nonces[i])
    ensures SolvesAll(s, ps, DecimalsOf(nonces))
  {
    forall i | 0 <= i < |ps|
      ensures SolvesPair(s, ps[i], DecimalsOf(nonces)[i])
    {
      assert GoodNonce(s, ps[i], nonces[i]);
    }
  }

  /** SolveChallenge for format 1: the posted JSON array satisfies verifyFormat1 at every position. */
  method SolvePairs(s: Suite, ps: seq<Pair>) returns (posted: Option<Json>)
    ensures posted.Some? <==> AllSolvable(s, ps)
    ensures posted.Some? ==>
              var texts := Format1Solutions(posted.value); texts.Some? && SolvesAll(s, ps, texts.value)
  {
    var nonces := SolveEach(s, ps);
    if nonces.None? {
      return None;
    }
    PostedTexts(nonces.value);
    DecimalsSolve(s, ps, nonces.value);
    posted := Some(Arr(Posted(nonces.value)));
  }

  lemma {:induction false} TextsExist(items: seq<Json>, texts: seq<string>)
    requires |items| == |texts| && forall k :: 0 <= k < |items| ==> NumberText(items[k]) == Some(texts[k])
    ensures Texts(items) == Some(texts)
  {
    if items != [] {
      TextsExist(items[1..], texts[1..]);
      assert [texts[0]] + texts[1..] == texts;
    } else {
      assert texts == [];
    }
  }
}
