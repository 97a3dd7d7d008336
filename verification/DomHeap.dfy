/** The two mutable structures behind that sum: a browser's element tree and Go's parent pointers. */
module DomHeap {
  import opened DomSum
  import opened Int32
  import opened JsNumber
  import opened Numerals

  // ----- Go: domSumMock -----

  class MockNode {
    const parent: MockNode?
    const value: int

    constructor (parent: MockNode?, value: int)
      ensures this.parent == parent && this.value == value
    {
      this.parent := parent;
      this.value := value;
    }
  }

  /** path runs from the root down parent pointers in reverse, and carries the given values. */
  ghost predicate MockPath(path: seq<MockNode>, values: seq<int>) {
    && |path| == |values| + 1
    && (forall i :: 1 <= i < |path| ==> path[i].parent == path[i - 1] && path[i].value == values[i - 1])
    && (forall i :: 1 <= i < |path| ==> path[i] != path[0])
  }

  lemma MockPathSnoc(path: seq<MockNode>, values: seq<int>, child: MockNode)
    requires MockPath(path, values)
    requires child.parent == path[|path| - 1] && child != path[0]
    ensures MockPath(path + [child], values + [child.value])
  {
  }

  method MockChain(from: MockNode, v: int, ghost path: seq<MockNode>, ghost values: seq<int>)
    returns (cur: MockNode, ghost path': seq<MockNode>)
    requires MockPath(path, values) && from == path[|path| - 1]
    ensures MockPath(path', Chained(values, v, 8)) && cur == path'[|path'| - 1] && path'[0] == path[0]
  {
    cur, path' := from, path;
    ghost var values' := values;
    var w, i := v, 0;
    while i < 8
      invariant 0 <= i <= 8
      invariant Chained(values', w, 8 - i) == Chained(values, v, 8)
      invariant MockPath(path', values') && cur == path'[|path'| - 1] && path'[0] == path[0]
    {
      var child := new MockNode(cur, w);
      if w % 2 == 0 {
        MockPathSnoc(path', values', child);
        cur, path', values' := child, path' + [child], values' + [w];
      }
      w := w / 2;
      i := i + 1;
    }
  }

  method MockWalk(n: MockNode?, root: MockNode, sum: int, ghost path: seq<MockNode>, ghost values: seq<int>)
    returns (r: int)
    requires MockPath(path, values) && n == path[|path| - 1] && root == path[0]
    ensures r == TruncRem(Sum(values) + sum, 256)
    decreases |path|
  {
    if n == null || n == root {
      assert |path| == 1;
      return TruncRem(sum, 256);
    }
    ghost var last := |path| - 1;
    r := MockWalk(n.parent, root, sum + n.value, path[..last], values[..last - 1]);
  }

  method DomSumMock(x: int, y: int, z: int) returns (r: int)
    ensures r == DomValue(x, y, z)
  {
    var root := new MockNode(null, 0);
    var a, pa := MockChain(root, x, [root], []);
    var b, pb := MockChain(a, y, pa, Chained([], x, 8));
    var c, pc := MockChain(b, z, pb, Chained(Chained([], x, 8), y, 8));
    AllValuesChained(x, y, z);
    r := MockWalk(c, root, 0, pc, AllValues(x, y, z));
  }

  // ----- JavaScript: the emitted helper on a mutable element tree -----

  class Element {
    var parent: Element?
    var text: string // the element's own text node
    var children: seq<Element>
    ghost var depth: nat // distance from the top, for elements in the tree
    ghost var index: nat // position among the parent's children

    /** document.createElement('div') */
    constructor ()
      ensures parent == null && text == "" && children == []
    {
      parent, text, children := null, "", [];
    }

    /** appendChild for a child that is nowhere yet. */
    method AppendChild(c: Element)
      requires c != this && c.parent == null
      modifies `children, c`parent, c`depth, c`index
      ensures children == old(children) + [c] && c.parent == this
      ensures c.depth == depth + 1 && c.index == |old(children)|
    {
      c.depth, c.index := depth + 1, |children|;
      children := children + [c];
      c.parent := this;
    }

    /** removeChild for the last element child; any other argument throws or is not used here. */
    method RemoveChild(c: Element)
      requires c != this && children != [] && children[|children| - 1] == c
      modifies `children, c`parent
      ensures children == old(children)[..|old(children)| - 1] && c.parent == null
    {
      children := children[..|children| - 1];
      c.parent := null;
    }

    /** innerText: with element children left it would also hold their text. */
    function InnerText(): string
      requires children == []
      reads this
    {
      text
    }
  }

  /** Links between the elements of one subtree agree. */
  ghost predicate Linked(repr: set<Element>)
    reads repr
  {
    forall n, i :: n in repr && 0 <= i < |n.children| ==>
      var c := n.children[i];
      c in repr && c.parent == n && c.depth == n.depth + 1 && c.index == i
  }

  /** path leads from the container down to a node, and its texts spell the values. */
  ghost predicate ElementPath(path: seq<Element>, values: seq<int>, repr: set<Element>)
    reads repr
  {
    && |path| == |values| + 1 && path[0] in repr
    && (forall i :: 0 <= i < |path| ==> path[i] in repr && path[i].depth == path[0].depth + i)
    && (forall i :: 1 <= i < |path| ==> path[i].parent == path[i - 1] && path[i].text == Decimal(values[i - 1]))
  }

  /** One turn of A's loop: a fresh child under p. */
  method AddChild(p: Element, v: int, ghost path: seq<Element>, ghost values: seq<int>, ghost repr: set<Element>)
    returns (c: Element)
    requires Linked(repr) && ElementPath(path, values, repr) && p == path[|path| - 1]
    modifies p
    ensures fresh(c) && c.parent == p && c.text == Decimal(v) && c.depth == p.depth + 1
    ensures p.parent == old(p.parent) && p.depth == old(p.depth) && p.text == old(p.text)
    ensures Linked(repr + {c})
  {
    c := new Element();
    assert c !in repr;
    ghost var k := |p.children|;
    p.AppendChild(c);
    c.text := Decimal(v);
    forall n, i | n in repr + {c} && 0 <= i < |n.children|
      ensures var e := n.children[i]; e in repr + {c} && e.parent == n && e.depth == n.depth + 1 && e.index == i
    {
      if n == p && i == k {
        assert n.children[i] == c;
      } else if n == c {
        assert false;
      } else {
        assert n.children[i] == old(n.children)[i];
      }
    }
  }

  lemma ElementPathSnoc(path: seq<Element>, values: seq<int>, repr: set<Element>, c: Element, v: int)
    requires ElementPath(path, values, repr) && c in repr
    requires c.parent == path[|path| - 1] && c.text == Decimal(v) && c.depth == path[|path| - 1].depth + 1
    ensures ElementPath(path + [c], values + [v], repr)
  {
    var longer, more := path + [c], values + [v];
    forall i | 1 <= i < |longer|
      ensures longer[i].parent == longer[i - 1] && longer[i].text == Decimal(more[i - 1])
    {
      assert longer[i - 1] == path[i - 1];
      assert i < |path| ==> longer[i] == path[i] && more[i - 1] == values[i - 1];
    }
  }

  /** A's loop body: the child becomes the next parent exactly when its value is even. */
  method ChainStep(p: Element, v: Number, ghost path: seq<Element>, ghost values: seq<int>, ghost repr: set<Element>)
    returns (p': Element, v': Number, ghost path': seq<Element>, ghost values': seq<int>, ghost repr': set<Element>)
    requires Linked(repr) && ElementPath(path, values, repr) && p == path[|path| - 1]
    requires -TWO31 <= Val(v) < TWO31
    modifies p
    ensures Val(v') == Val(v) / 2
    ensures repr <= repr' && fresh(repr' - repr) && Linked(repr')
    ensures values' == if Val(v) % 2 == 0 then values + [Val(v)] else values
    ensures ElementPath(path', values', repr') && p' == path'[|path'| - 1] && path'[0] == path[0]
    ensures path[0].parent == old(path[0].parent)
  {
    var c := AddChild(p, Val(v), path, values, repr);
    p', path', values', repr' := p, path, values, repr + {c};
    assert ElementPath(path, values, repr');
    EvenTest(v);
    Halved(v);
    if BitNum(And, v, Fin(1)) == Fin(0) {
      ElementPathSnoc(path, values, repr', c, Val(v));
      p', path', values' := c, path + [c], values + [Val(v)];
    }
    v' := ShiftRight1(v);
  }

  /** A(p, v) */
  method BuildChain(p0: Element, v0: Number, ghost path: seq<Element>, ghost values: seq<int>, ghost repr: set<Element>)
    returns (p: Element, ghost path': seq<Element>, ghost values': seq<int>, ghost repr': set<Element>)
    requires Linked(repr) && ElementPath(path, values, repr) && p0 == path[|path| - 1]
    requires -TWO31 <= Val(v0) < TWO31
    modifies repr
    ensures repr <= repr' && fresh(repr' - repr) && Linked(repr')
    ensures values' == Chained(values, Val(v0), 8)
    ensures ElementPath(path', values', repr')
    ensures p == path'[|path'| - 1] && path'[0] == path[0] && path[0].parent == old(path[0].parent)
  {
    p, path', values', repr' := p0, path, values, repr;
    ghost var top := path[0].parent;
    var v, i := v0, 0;
    while i < 8
      invariant 0 <= i <= 8 && -TWO31 <= Val(v) < TWO31
      invariant repr <= repr' && fresh(repr' - repr) && Linked(repr')
      invariant Chained(values', Val(v), 8 - i) == Chained(values, Val(v0), 8)
      invariant ElementPath(path', values', repr')
      invariant p == path'[|path'| - 1] && path'[0] == path[0] && path[0].parent == top
    {
      p, v, path', values', repr' := ChainStep(p, v, path', values', repr');
      i := i + 1;
    }
  }

  /** while (n.children.length > 0) n.removeChild(n.lastElementChild); */
  method RemoveChildren(n: Element, ghost path: seq<Element>, ghost values: seq<int>, ghost repr: set<Element>)
    requires Linked(repr) && ElementPath(path, values, repr)
    requires n == path[|path| - 1] && |path| > 1 && path[0].parent !in repr
    modifies repr
    ensures n.children == [] && Linked(repr) && ElementPath(path, values, repr)
    ensures path[0].parent == old(path[0].parent)
  {
    while |n.children| > 0
      invariant Linked(repr) && ElementPath(path, values, repr)
      invariant path[0].parent == old(path[0].parent)
      decreases |n.children|
    {
      n.RemoveChild(n.children[|n.children| - 1]);
    }
  }

  lemma WalkStep(all: seq<int>, k: nat)
    requires k < |all| <= 24 && AllInt32(all)
    ensures AddNum(Fin(Sum(all[k + 1..])), Fin(all[k])) == Fin(Sum(all[k..]))
  {
    assert all[k..] == [all[k]] + all[k + 1..];
    SumConcat([all[k]], all[k + 1..]);
    assert [all[k]][..0] == [];
    PartialSumsAreExact(all, k);
  }

  /** B(n, r, s) */
  method Walk(n: Element?, r: Element, s: Number, ghost path: seq<Element>, ghost values: seq<int>, ghost all: seq<int>,
              ghost repr: set<Element>)
    returns (result: Number)
    requires Linked(repr) && ElementPath(path, values, repr)
    requires n == path[|path| - 1] && r == path[0] && r.parent !in repr
    requires AllInt32(all) && |values| <= |all| <= 24 && values == all[..|values|] && s == Fin(Sum(all[|values|..]))
    modifies repr
    ensures result == RemNum(Fin(Sum(all)), 256)
    ensures r.parent == old(r.parent)
    decreases |path|
  {
    if n == null || n == r {
      assert all[0..] == all;
      return RemNum(s, 256);
    }
    ghost var k := |values| - 1;
    RemoveChildren(n, path, values, repr);
    var text := n.InnerText();
    var sum := AddNum(s, Fin(ParseInt(text).GetOr(0)));
    ParseIntOfDecimal(values[k]);
    WalkStep(all, k);
    result := Walk(n.parent, r, sum, path[..k + 1], values[..k], all, repr);
  }

  /** A(A(A(d, x), y), z) on an empty container. */
  method BuildAll(d: Element, x: Number, y: Number, z: Number)
    returns (c: Element, ghost path: seq<Element>, ghost repr: set<Element>)
    requires d.children == []
    requires -TWO31 <= Val(x) < TWO31 && -TWO31 <= Val(y) < TWO31 && -TWO31 <= Val(z) < TWO31
    modifies d
    ensures d in repr && fresh(repr - {d}) && Linked(repr)
    ensures ElementPath(path, AllValues(Val(x), Val(y), Val(z)), repr)
    ensures c == path[|path| - 1] && path[0] == d && d.parent == old(d.parent)
  {
    var a, pa, va, ra := BuildChain(d, x, [d], [], {d});
    assert fresh(ra - {d});
    var b, pb, vb, rb := BuildChain(a, y, pa, va, ra);
    assert fresh(rb - {d});
    ghost var vc;
    c, path, vc, repr := BuildChain(b, z, pb, vb, rb);
    AllValuesChained(Val(x), Val(y), Val(z));
  }

  /**
   * The whole helper. It answers what the list model says, and it leaves the page as it found it:
   * the container is appended to the body, filled, emptied along the walk and removed again.
   */
  method DomHelper(body: Element, x: Number, y: Number, z: Number) returns (s: Number)
    requires -TWO31 <= Val(x) < TWO31 && -TWO31 <= Val(y) < TWO31 && -TWO31 <= Val(z) < TWO31
    modifies body
    ensures s == RemNum(Fin(Sum(AllValues(Val(x), Val(y), Val(z)))), 256)
    ensures body.children == old(body.children) && body.text == old(body.text) && body.parent == old(body.parent)
  {
    var d := new Element();
    body.AppendChild(d);
    var c, path, repr := BuildAll(d, x, y, z);
    ghost var all := AllValues(Val(x), Val(y), Val(z));
    AllValuesBounds(Val(x), Val(y), Val(z));
    assert all[..|all|] == all && all[|all|..] == [];
    s := Walk(c, d, Fin(0), path, all, all, repr);
    d.parent.RemoveChild(d);
  }
}
