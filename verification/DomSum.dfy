/** What the DOM-walking helper computes, stated on lists of numbers. */
module DomSum {
  import opened Arith
  import opened Int32
  import opened JsNumber

  /**
   * The values on the path that one chain of `steps` children adds: a child becomes the next parent
   * exactly when its value is even, and the value is halved after every child.
   * (The measure names v only to keep the verifier from unrolling all 8 steps.)
   */
  function PathValues(v: int, steps: nat): seq<int>
    decreases steps, v - v
  {
    if steps == 0 then []
    else (if v % 2 == 0 then [v] else []) + PathValues(v / 2, steps - 1)
  }

  /** The same list, grown from the one built so far, as the loops do it. */
  function Chained(done: seq<int>, v: int, steps: nat): seq<int>
    decreases steps, v - v
  {
    if steps == 0 then done
    else Chained(if v % 2 == 0 then done + [v] else done, v / 2, steps - 1)
  }

  lemma {:induction false} ChainedIsPathValues(done: seq<int>, v: int, steps: nat)
    ensures Chained(done, v, steps) == done + PathValues(v, steps)
    decreases steps
  {
    if steps > 0 {
      ChainedIsPathValues(if v % 2 == 0 then done + [v] else done, v / 2, steps - 1);
    }
  }

  lemma {:induction false} AllValuesChained(x: int, y: int, z: int)
    ensures Chained(Chained(Chained([], x, 8), y, 8), z, 8) == AllValues(x, y, z)
  {
    ChainedIsPathValues([], x, 8);
    ChainedIsPathValues(PathValues(x, 8), y, 8);
    ChainedIsPathValues(PathValues(x, 8) + PathValues(y, 8), z, 8);
    assert [] + PathValues(x, 8) == PathValues(x, 8);
  }

  function Sum(s: seq<int>): int {
    if s == [] then 0 else Sum(s[..|s| - 1]) + s[|s| - 1]
  }

  lemma {:induction false} SumConcat(a: seq<int>, b: seq<int>)
    ensures Sum(a + b) == Sum(a) + Sum(b)
  {
    if b == [] {
      assert a + b == a;
    } else {
      SumConcat(a, b[..|b| - 1]);
      assert (a + b)[..|a + b| - 1] == a + b[..|b| - 1];
    }
  }

  function AllValues(x: int, y: int, z: int): seq<int> {
    PathValues(x, 8) + PathValues(y, 8) + PathValues(z, 8)
  }

  /** The helper's answer in Go: the truncated remainder of the sum over the path. */
  function DomValue(x: int, y: int, z: int): int {
    TruncRem(Sum(AllValues(x, y, z)), 256)
  }

  // ----- closed form -----

  /** The sum of v >> i over the i in [from, 8) where bit i of v is 0. */
  function ShiftSum(v: int, from: nat): int
    requires from <= 8
    decreases 8 - from
  {
    if from == 8 then 0
    else (if v / Pow2(from) % 2 == 0 then v / Pow2(from) else 0) + ShiftSum(v, from + 1)
  }

  lemma {:induction false} PathSum(v: int, from: nat)
    requires from <= 8
    ensures Sum(PathValues(v / Pow2(from), 8 - from)) == ShiftSum(v, from)
    decreases 8 - from
  {
    if from < 8 {
      var w := v / Pow2(from);
      assert w / 2 == v / Pow2(from + 1) by { NestedHalf(v, from); }
      PathSum(v, from + 1);
      var head := if w % 2 == 0 then [w] else [];
      SumConcat(head, PathValues(w / 2, 7 - from));
      assert Sum(head) == if w % 2 == 0 then w else 0 by {
        if w % 2 == 0 {
          assert [w][..0] == [];
        }
      }
    }
  }

  lemma NestedHalf(v: int, k: nat)
    ensures v / Pow2(k) / 2 == v / Pow2(k + 1)
  {
    var m := Pow2(k);
    var q, r := v / (2 * m), v % (2 * m);
    assert v == (2 * m) * q + r && (2 * m) * q == (2 * q) * m;
    if r < m {
      DivModUnique(v, 2 * q, m, r);
    } else {
      assert v == (2 * q + 1) * m + (r - m) by { assert (2 * q + 1) * m == (2 * q) * m + m; }
      DivModUnique(v, 2 * q + 1, m, r - m);
    }
  }

  lemma {:induction false} DomValueClosedForm(x: int, y: int, z: int)
    ensures DomValue(x, y, z) == TruncRem(ShiftSum(x, 0) + ShiftSum(y, 0) + ShiftSum(z, 0), 256)
  {
    PathSum(x, 0);
    PathSum(y, 0);
    PathSum(z, 0);
    assert x / 1 == x && y / 1 == y && z / 1 == z;
    SumConcat(PathValues(x, 8) + PathValues(y, 8), PathValues(z, 8));
    SumConcat(PathValues(x, 8), PathValues(y, 8));
  }

  // ----- bounds: JavaScript's additions are exact -----

  predicate AllInt32(s: seq<int>) {
    forall i :: 0 <= i < |s| ==> -TWO31 <= s[i] < TWO31
  }

  lemma {:induction false} PathBounds(v: int, steps: nat)
    requires -TWO31 <= v < TWO31
    ensures |PathValues(v, steps)| <= steps && AllInt32(PathValues(v, steps))
    decreases steps
  {
    if steps > 0 {
      PathBounds(v / 2, steps - 1);
    }
  }

  lemma AllValuesBounds(x: int32, y: int32, z: int32)
    ensures |AllValues(x, y, z)| <= 24 && AllInt32(AllValues(x, y, z))
  {
    PathBounds(x, 8);
    PathBounds(y, 8);
    PathBounds(z, 8);
  }

  lemma {:induction false} SumBound(s: seq<int>)
    requires AllInt32(s)
    ensures -TWO31 * |s| <= Sum(s) <= TWO31 * |s|
  {
    if s != [] {
      SumBound(s[..|s| - 1]);
    }
  }

  /** Every partial sum of the walk, from the end of the path, is far below 2^53. */
  lemma PartialSumsAreExact(s: seq<int>, k: nat)
    requires AllInt32(s) && |s| <= 24 && k <= |s|
    ensures Round(Sum(s[k..])) == Sum(s[k..])
  {
    SumBound(s[k..]);
    RoundExact(Sum(s[k..]));
  }
}
