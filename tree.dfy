/**
  The wrapped tree of the org chart, kept as an arena.

  Every wrapped node is identified by its index.  The arena records for each
  node the raw data node it wraps (`node`), its parent (`parentNode`, -1 for
  the root), its `depth` and its ordered `children`.  The rectangles are not
  part of the arena: the layout passes keep them in an array indexed the
  same way.  The wrapping pass assigns indices in breadth-first order, so a
  parent's index is always smaller than its children's and the children of a
  node are listed in increasing index order.
 */
module Tree {
  import opened Wrappers

  /** A node of the caller's hierarchical data: its label and its children. */
  datatype RawNode = RawNode(name: string, kids: seq<RawNode>)

  /** Number of raw nodes in the tree rooted at `r`. */
  function Size(r: RawNode): nat
    decreases r
  {
    1 + SizeSum(r.kids)
  }

  /** Number of raw nodes in a forest. */
  function SizeSum(s: seq<RawNode>): nat
    decreases s
  {
    if |s| == 0 then 0 else Size(s[0]) + SizeSum(s[1..])
  }

  lemma {:induction false} SizeSumConcat(a: seq<RawNode>, b: seq<RawNode>)
    ensures SizeSum(a + b) == SizeSum(a) + SizeSum(b)
    decreases |a|
  {
    if |a| > 0 {
      assert (a + b)[1..] == a[1..] + b;
      SizeSumConcat(a[1..], b);
    } else {
      assert a + b == b;
    }
  }

  /** `isEmpty`: a child list is empty. */
  function IsEmpty<T>(s: seq<T>): bool
  {
    |s| == 0
  }

  /** `Array.prototype.indexOf`: the first position of `x` in `s`, or -1. */
  function IndexOf(s: seq<nat>, x: nat): (i: int)
    ensures -1 <= i < |s|
    ensures i == -1 <==> x !in s
    ensures 0 <= i ==> s[i] == x && x !in s[..i]
  {
    if |s| == 0 then -1
    else if s[0] == x then 0
    else
      var k := IndexOf(s[1..], x);
      if k < 0 then -1
      else
        assert s[1..][..k] == s[1..k + 1];
        assert s[..k + 1] == [s[0]] + s[1..k + 1];
        k + 1
  }

  datatype Tree = Tree(node: seq<RawNode>, parentNode: seq<int>, depth: seq<nat>, children: seq<seq<nat>>)
  {
    function Size(): nat { |parentNode| }

    /** The arena is a single-rooted tree whose parent and child links agree. */
    predicate Valid()
    {
      && |parentNode| >= 1
      && |node| == |parentNode| && |depth| == |parentNode| && |children| == |parentNode|
      && parentNode[0] == -1 && depth[0] == 0
      && (forall u :: 1 <= u < |parentNode| ==>
            && 0 <= parentNode[u] < u
            && depth[u] == depth[parentNode[u]] + 1
            && u in children[parentNode[u]])
      && (forall v, j :: 0 <= v < |parentNode| && 0 <= j < |children[v]| ==>
            v < children[v][j] < |parentNode| && parentNode[children[v][j]] == v)
      && (forall v, i :: 0 <= v < |parentNode| && 0 < i < |children[v]| ==>
            children[v][i - 1] < children[v][i])
    }

    function Parent(u: nat): nat
      requires Valid() && 0 < u < Size()
    {
      parentNode[u] as nat
    }

    /** `a` is `u` or one of its ancestors. */
    predicate Anc(a: nat, u: nat)
      requires Valid() && u < Size()
      decreases u
    {
      u == a || (u > 0 && Anc(a, Parent(u)))
    }

    /** Position of a non-root node in its parent's child list (`children.indexOf(node)`). */
    function Pos(v: nat): (i: nat)
      requires Valid() && 0 < v < Size()
      ensures i < |children[Parent(v)]| && children[Parent(v)][i] == v
    {
      IndexOf(children[Parent(v)], v) as nat
    }

    predicate IsInternal(u: nat)
      requires Valid() && u < Size()
    {
      |children[u]| > 0
    }
  }

  // ---- ancestry ---------------------------------------------------------------

  /** An ancestor never has a larger index than its descendant. */
  lemma {:induction false} AncBound(t: Tree, a: nat, u: nat)
    requires t.Valid() && u < t.Size()
    ensures t.Anc(a, u) ==> a <= u
    decreases u
  {
    if u != a && u > 0 {
      AncBound(t, a, t.Parent(u));
    }
  }

  /** A child list is in increasing index order. */
  lemma {:induction false} ChildrenSorted(t: Tree, v: nat, i: nat, j: nat)
    requires t.Valid() && v < t.Size() && i < j < |t.children[v]|
    ensures t.children[v][i] < t.children[v][j]
    decreases j
  {
    if i < j - 1 {
      ChildrenSorted(t, v, i, j - 1);
    }
  }

  lemma {:induction false} RootIsAncestor(t: Tree, u: nat)
    requires t.Valid() && u < t.Size()
    ensures t.Anc(0, u)
    decreases u
  {
    if u > 0 {
      RootIsAncestor(t, t.Parent(u));
    }
  }

  lemma ChildAnc(t: Tree, v: nat, j: nat)
    requires t.Valid() && v < t.Size() && j < |t.children[v]|
    ensures t.children[v][j] < t.Size() && t.Anc(v, t.children[v][j])
  {
    var c := t.children[v][j];
    assert t.Parent(c) == v;
    assert t.Anc(v, v);
  }

  lemma {:induction false} AncTrans(t: Tree, a: nat, b: nat, u: nat)
    requires t.Valid() && b < t.Size() && u < t.Size()
    requires t.Anc(a, b) && t.Anc(b, u)
    ensures t.Anc(a, u)
    decreases u
  {
    if u != b {
      AncTrans(t, a, b, t.Parent(u));
    }
  }

  /** The ancestors of a node form a chain. */
  lemma {:induction false} AncLinear(t: Tree, a: nat, b: nat, u: nat)
    requires t.Valid() && a < t.Size() && b < t.Size() && u < t.Size()
    requires t.Anc(a, u) && t.Anc(b, u)
    ensures t.Anc(a, b) || t.Anc(b, a)
    decreases u
  {
    if u == a {
    } else if u == b {
    } else {
      AncLinear(t, a, b, t.Parent(u));
    }
  }

  /** A proper descendant of `v` lies in the subtree of one of `v`'s children. */
  lemma {:induction false} DescendantViaChild(t: Tree, v: nat, u: nat) returns (j: nat)
    requires t.Valid() && v < t.Size() && u < t.Size()
    requires t.Anc(v, u) && u != v
    ensures j < |t.children[v]| && t.Anc(t.children[v][j], u)
    decreases u
  {
    var p := t.Parent(u);
    if p == v {
      j := t.Pos(u);
    } else {
      j := DescendantViaChild(t, v, p);
    }
  }

  /** Only an internal node has proper descendants. */
  lemma ProperDescendant(t: Tree, v: nat, u: nat)
    requires t.Valid() && v < t.Size() && u < t.Size()
    ensures t.Anc(v, u) ==> u == v || t.IsInternal(v)
  {
    if t.Anc(v, u) && u != v {
      var j := DescendantViaChild(t, v, u);
    }
  }

  /** Distinct children of one node have disjoint subtrees. */
  lemma SiblingsDisjoint(t: Tree, p: nat, i: nat, j: nat, u: nat)
    requires t.Valid() && p < t.Size() && i < |t.children[p]| && j < |t.children[p]| && i != j
    requires u < t.Size()
    ensures !t.Anc(t.children[p][i], t.children[p][j])
    ensures !(t.Anc(t.children[p][i], u) && t.Anc(t.children[p][j], u))
  {
    SiblingsUnrelated(t, p, i, j);
    SiblingsUnrelated(t, p, j, i);
    if t.Anc(t.children[p][i], u) && t.Anc(t.children[p][j], u) {
      AncLinear(t, t.children[p][i], t.children[p][j], u);
    }
  }

  lemma SiblingsUnrelated(t: Tree, p: nat, i: nat, j: nat)
    requires t.Valid() && p < t.Size() && i < |t.children[p]| && j < |t.children[p]| && i != j
    ensures !t.Anc(t.children[p][i], t.children[p][j])
  {
    var a, b := t.children[p][i], t.children[p][j];
    assert a != b by {
      if i < j { ChildrenSorted(t, p, i, j); } else { ChildrenSorted(t, p, j, i); }
    }
    assert t.Anc(a, b) ==> t.Anc(a, p);
    AncBound(t, a, p);
  }

  /** A child occurs exactly once in its parent's list. */
  lemma PosUnique(t: Tree, v: nat, j: nat)
    requires t.Valid() && 0 < v < t.Size()
    requires j < |t.children[t.Parent(v)]| && t.children[t.Parent(v)][j] == v
    ensures j == t.Pos(v)
  {
    if j > t.Pos(v) {
      ChildrenSorted(t, t.Parent(v), t.Pos(v), j);
    }
  }

  // ---- siblings ---------------------------------------------------------------

  /** `findPreSibling`: the sibling just before `v`, if any. */
  function PreSibling(t: Tree, v: nat): (r: Option<nat>)
    requires t.Valid() && v < t.Size()
    ensures r.Some? <==> v > 0 && t.Pos(v) > 0
    ensures r.Some? ==> && 0 < r.value < t.Size() && t.Parent(r.value) == t.Parent(v)
                        && t.Pos(r.value) + 1 == t.Pos(v)
  {
    if t.parentNode[v] < 0 then None
    else
      var cs := t.children[t.Parent(v)];
      var index := IndexOf(cs, v);
      if index > 0 then
        assert 0 < cs[index - 1] < t.Size();
        PosUnique(t, cs[index - 1], index - 1);
        Some(cs[index - 1])
      else None
  }

  /** `findNextSibling`: the sibling just after `v`, if any. */
  function NextSibling(t: Tree, v: nat): (r: Option<nat>)
    requires t.Valid() && v < t.Size()
    ensures r.Some? <==> v > 0 && t.Pos(v) < |t.children[t.Parent(v)]| - 1
    ensures r.Some? ==> && 0 < r.value < t.Size() && t.Parent(r.value) == t.Parent(v)
                        && t.Pos(r.value) == t.Pos(v) + 1
  {
    if t.parentNode[v] < 0 then None
    else
      var cs := t.children[t.Parent(v)];
      var index := IndexOf(cs, v);
      if index >= 0 && index <= |cs| - 2 then
        assert 0 < cs[index + 1] < t.Size();
        PosUnique(t, cs[index + 1], index + 1);
        Some(cs[index + 1])
      else None
  }

  /** `findNextSibling` and `findPreSibling` are inverse to each other. */
  lemma SiblingInverse(t: Tree, a: nat, b: nat)
    requires t.Valid() && a < t.Size() && b < t.Size()
    ensures NextSibling(t, a) == Some(b) <==> PreSibling(t, b) == Some(a)
  {
    if NextSibling(t, a) == Some(b) {
      var cs := t.children[t.Parent(a)];
      assert cs[t.Pos(a) + 1] == b;
    }
    if PreSibling(t, b) == Some(a) {
      var cs := t.children[t.Parent(b)];
      assert cs[t.Pos(b) - 1] == a;
    }
  }
}
