/** shuffleStrings: the Fisher-Yates shuffle (instrumentation.go). */
module Shuffle {
  import opened Numerals

  /** One draw per position; the draw for position i lies in [0, i]. */
  predicate ValidChoices(js: seq<nat>) {
    forall i :: 0 <= i < |js| ==> js[i] <= i
  }

  /** What is left below the last position after the last element and element j change places. */
  function Rest<T>(s: seq<T>, j: nat): (r: seq<T>)
    requires j < |s|
    ensures |r| == |s| - 1
  {
    var n := |s| - 1;
    if j == n then s[..n] else s[..n][j := s[n]]
  }

  /** The last position is settled first; below it stands a shuffle of what is left. */
  function Shuffled<T>(s: seq<T>, js: seq<nat>): (r: seq<T>)
    requires |js| == |s| && ValidChoices(js)
    ensures |r| == |s|
    decreases |s|
  {
    if s == [] then []
    else
      var n := |s| - 1;
      Shuffled(Rest(s, js[n]), js[..n]) + [s[js[n]]]
  }

  lemma SettleLast<T>(s: seq<T>, tail: seq<T>, js: seq<nat>)
    requires |s| == |js| > 0 && ValidChoices(js)
    ensures var n := |s| - 1;
      Shuffled(s, js) + tail == Shuffled(Rest(s, js[n]), js[..n]) + ([s[js[n]]] + tail)
  {
    var n := |s| - 1;
    ConcatAssoc(Shuffled(Rest(s, js[n]), js[..n]), [s[js[n]]], tail);
  }

  /** One exchange in the slice: items[..i + 1] was head. */
  method Exchange<T>(items: array<T>, i: nat, j: nat, ghost head: seq<T>, ghost tail: seq<T>)
    requires j <= i < items.Length && |head| == i + 1 && items[..] == head + tail
    modifies items
    ensures items[..] == Rest(head, j) + ([head[j]] + tail)
  {
    assert items[i] == head[i] && items[j] == head[j];
    items[i], items[j] := items[j], items[i];
  }

  /** The in-place loop, from the last index down to 1. */
  method ShuffleInPlace<T>(items: array<T>, js: seq<nat>)
    requires |js| == items.Length && ValidChoices(js)
    modifies items
    ensures items[..] == Shuffled(old(items[..]), js)
  {
    var i := items.Length - 1;
    ghost var was, head, tail: seq<T>, left := items[..], items[..], [], js;
    while i > 0
      invariant -1 <= i < items.Length && |head| == i + 1
      invariant items[..] == head + tail
      invariant left == js[..i + 1] && Shuffled(head, left) + tail == Shuffled(was, js)
    {
      SettleLast(head, tail, left);
      Exchange(items, i, js[i], head, tail);
      head, tail, left := Rest(head, js[i]), [head[js[i]]] + tail, left[..i];
      i := i - 1;
    }
    SmallShuffle(head, left);
  }

  lemma {:induction false} SmallShuffle<T>(s: seq<T>, js: seq<nat>)
    requires |js| == |s| <= 1 && ValidChoices(js)
    ensures Shuffled(s, js) == s
  {
    if |s| == 1 {
      assert Rest(s, 0) == [] && Shuffled(Rest(s, 0), js[..0]) == [];
    }
  }

  // ----- a permutation -----

  lemma RestMultiset<T>(s: seq<T>, j: nat)
    requires j < |s|
    ensures multiset(Rest(s, j)) + multiset{s[j]} == multiset(s)
  {
    var n := |s| - 1;
    assert s == s[..n] + [s[n]];
    if j < n {
      assert multiset(s[..n][j := s[n]]) == multiset(s[..n]) - multiset{s[j]} + multiset{s[n]};
    }
  }

  lemma {:induction false} ShuffledIsPermutation<T>(s: seq<T>, js: seq<nat>)
    requires |js| == |s| && ValidChoices(js)
    ensures multiset(Shuffled(s, js)) == multiset(s)
    decreases |s|
  {
    if s != [] {
      var n := |s| - 1;
      RestMultiset(s, js[n]);
      ShuffledIsPermutation(Rest(s, js[n]), js[..n]);
    }
  }

  // ----- every permutation from exactly one sequence of draws -----

  predicate NoDuplicates<T(==)>(s: seq<T>) {
    forall i, j :: 0 <= i < j < |s| ==> s[i] != s[j]
  }

  lemma LastEqual<T>(a: seq<T>, x: T, b: seq<T>, y: T)
    requires a + [x] == b + [y]
    ensures a == b && x == y
  {
    assert |a + [x]| == |b + [y]|;
    assert (a + [x])[..|a|] == a && (b + [y])[..|b|] == b;
    assert (a + [x])[|a|] == x && (b + [y])[|b|] == y;
  }

  lemma RestKeepsDistinct<T>(s: seq<T>, j: nat)
    requires j < |s| && NoDuplicates(s)
    ensures NoDuplicates(Rest(s, j))
  {
  }

  lemma SamePosition<T>(s: seq<T>, j: nat, k: nat)
    requires j < |s| && k < |s| && NoDuplicates(s) && s[j] == s[k]
    ensures j == k
  {
  }

  lemma SameSnoc<T>(a: seq<T>, b: seq<T>)
    requires |a| == |b| > 0 && a[..|a| - 1] == b[..|b| - 1] && a[|a| - 1] == b[|b| - 1]
    ensures a == b
  {
    assert a == a[..|a| - 1] + [a[|a| - 1]];
  }

  lemma FrontIsValid(js: seq<nat>)
    requires js != [] && ValidChoices(js)
    ensures ValidChoices(js[..|js| - 1])
  {
  }

  lemma {:induction false} LastDrawIsDetermined<T>(s: seq<T>, js: seq<nat>, ks: seq<nat>)
    requires s != [] && NoDuplicates(s) && |js| == |ks| == |s| && ValidChoices(js) && ValidChoices(ks)
    requires Shuffled(s, js) == Shuffled(s, ks)
    ensures var n := |s| - 1;
      && js[n] == ks[n] && NoDuplicates(Rest(s, js[n])) && ValidChoices(js[..n]) && ValidChoices(ks[..n])
      && Shuffled(Rest(s, js[n]), js[..n]) == Shuffled(Rest(s, js[n]), ks[..n])
  {
    var n := |s| - 1;
    FrontIsValid(js);
    FrontIsValid(ks);
    RestKeepsDistinct(s, js[n]);
    LastEqual(Shuffled(Rest(s, js[n]), js[..n]), s[js[n]], Shuffled(Rest(s, ks[n]), ks[..n]), s[ks[n]]);
    SamePosition(s, js[n], ks[n]);
  }

  lemma {:induction false} DrawsAreDetermined<T>(s: seq<T>, js: seq<nat>, ks: seq<nat>)
    requires NoDuplicates(s) && |js| == |ks| == |s| && ValidChoices(js) && ValidChoices(ks)
    requires Shuffled(s, js) == Shuffled(s, ks)
    ensures js == ks
    decreases |s|
  {
    if s != [] {
      var n := |s| - 1;
      LastDrawIsDetermined(s, js, ks);
      DrawsAreDetermined(Rest(s, js[n]), js[..n], ks[..n]);
      SameSnoc(js, ks);
    }
  }

  lemma PositionOf<T>(s: seq<T>, x: T) returns (j: nat)
    requires x in multiset(s)
    ensures j < |s| && s[j] == x
  {
    assert x in s;
    j :| j < |s| && s[j] == x;
  }

  /** The draws that lead from s to a given arrangement of it. */
  lemma {:induction false} DrawsFor<T>(s: seq<T>, target: seq<T>) returns (js: seq<nat>)
    requires multiset(target) == multiset(s)
    ensures |js| == |s| && ValidChoices(js) && Shuffled(s, js) == target
    decreases |s|
  {
    assert |target| == |multiset(target)| && |s| == |multiset(s)|;
    if s == [] {
      js := [];
    } else {
      var n := |s| - 1;
      var front, last := target[..n], target[n];
      assert target == front + [last];
      var j := PositionOf(s, last);
      RestMultiset(s, j);
      SameRemainder(multiset(Rest(s, j)), multiset(front), last);
      var ks := DrawsFor(Rest(s, j), front);
      js := ks + [j];
      assert js[..n] == ks && js[n] == j;
    }
  }

  lemma SameRemainder<T>(a: multiset<T>, b: multiset<T>, x: T)
    requires a + multiset{x} == b + multiset{x}
    ensures a == b
  {
    assert a == a + multiset{x} - multiset{x};
    assert b == b + multiset{x} - multiset{x};
  }

  predicate Leads<T(==)>(s: seq<T>, js: seq<nat>, target: seq<T>) {
    |js| == |s| && ValidChoices(js) && Shuffled(s, js) == target
  }

  /** Fisher-Yates is a bijection between draws and arrangements of a duplicate-free slice. */
  lemma ExactlyOneDrawPerArrangement<T>(s: seq<T>, target: seq<T>)
    requires NoDuplicates(s)
    ensures multiset(target) == multiset(s) <==> exists js :: Leads(s, js, target)
    ensures forall js, ks :: Leads(s, js, target) && Leads(s, ks, target) ==> js == ks
  {
    if multiset(target) == multiset(s) {
      var js := DrawsFor(s, target);
      assert Leads(s, js, target);
    }
    forall js | Leads(s, js, target)
      ensures multiset(target) == multiset(s)
    {
      ShuffledIsPermutation(s, js);
    }
    forall js, ks | Leads(s, js, target) && Leads(s, ks, target)
      ensures js == ks
    {
      DrawsAreDetermined(s, js, ks);
    }
  }

  lemma {:induction false} CountAtMostOne<T>(s: seq<T>, x: T)
    requires NoDuplicates(s)
    ensures multiset(s)[x] <= 1
    decreases |s|
  {
    if s != [] {
      var n := |s| - 1;
      assert s == s[..n] + [s[n]];
      CountAtMostOne(s[..n], x);
      if s[n] == x {
        assert x !in s[..n];
        assert x !in multiset(s[..n]);
      }
    }
  }

  lemma TwiceCounts<T>(t: seq<T>, i: nat, j: nat)
    requires i < j < |t| && t[i] == t[j]
    ensures multiset(t)[t[i]] >= 2
  {
    assert t == t[..j] + t[j..];
    assert t[j..][0] == t[j] && t[..j][i] == t[i];
    assert t[i] in t[..j] && t[i] in t[j..];
    assert t[i] in multiset(t[..j]) && t[i] in multiset(t[j..]);
  }

  /** A rearranged duplicate-free slice is duplicate-free, with the same elements. */
  lemma RearrangedKeepsDistinct<T>(s: seq<T>, t: seq<T>)
    requires NoDuplicates(s) && multiset(t) == multiset(s)
    ensures NoDuplicates(t)
    ensures forall x :: x in t <==> x in s
  {
    forall i, j | 0 <= i < j < |t|
      ensures t[i] != t[j]
    {
      if t[i] == t[j] {
        TwiceCounts(t, i, j);
        CountAtMostOne(s, t[i]);
      }
    }
    forall x
      ensures x in t <==> x in s
    {
      assert x in t <==> x in multiset(t);
      assert x in s <==> x in multiset(s);
    }
  }
}
