/**
  The output lists (`createNodes`, `createLinks`) and the connectors drawn
  between a parent and its children.

  Both lists are built by `traverseTreeLastOrder`, which visits the
  children's subtrees in order and then the node itself.  For every node the
  link callback adds up to three segments: a stub from the node back toward
  its parent, a stub from the node toward its children, and a bar across the
  children.  A top-down tree uses top and bottom edge centres
  (`linksCallback`), a left-right tree left and right ones
  (`vertialLinksCallback`).
 */
module Links {
  import opened Geometry
  import opened Tree
  import opened Place
  import opened Move
  import opened Adjust

  // ---- traverseTreeLastOrder -----------------------------------------------------

  /** The nodes of the subtree of `v` in the order `traverseTreeLastOrder` visits them. */
  function PostOrder(t: Tree, v: nat): (s: seq<nat>)
    requires t.Valid() && v < t.Size()
    ensures NodeList(t, s)
    ensures |s| > 0 && s[|s| - 1] == v
    decreases t.Size() - v, 1
  {
    KidsPostOrder(t, v, |t.children[v]|) + [v]
  }

  /** The visits made by the first `k` iterations of the loop over the children of `v`. */
  function KidsPostOrder(t: Tree, v: nat, k: nat): (s: seq<nat>)
    requires t.Valid() && v < t.Size() && k <= |t.children[v]|
    ensures NodeList(t, s)
    decreases t.Size() - v, 0, k
  {
    if k == 0 then []
    else
      ChildAnc(t, v, k - 1);
      AncBound(t, v, t.children[v][k - 1]);
      KidsPostOrder(t, v, k - 1) + PostOrder(t, t.children[v][k - 1])
  }

  /** The walk from `v` visits exactly the subtree of `v`. */
  lemma {:induction false} PostOrderMembers(t: Tree, v: nat, x: nat)
    requires t.Valid() && v < t.Size() && x < t.Size()
    ensures x in PostOrder(t, v) <==> t.Anc(v, x)
    decreases t.Size() - v, 1
  {
    var cs := t.children[v];
    KidsMembers(t, v, |cs|, x);
    assert cs[..|cs|] == cs;
    SubtreeSplit(t, v, x);
    assert [v][0] == v;
  }

  lemma {:induction false} KidsMembers(t: Tree, v: nat, k: nat, x: nat)
    requires t.Valid() && v < t.Size() && k <= |t.children[v]| && x < t.Size()
    ensures x in KidsPostOrder(t, v, k) <==> InSome(t, t.children[v][..k], x)
    decreases t.Size() - v, 0, k
  {
    if k > 0 {
      var c := t.children[v][k - 1];
      ChildAnc(t, v, k - 1);
      AncBound(t, v, c);
      KidsMembers(t, v, k - 1, x);
      PostOrderMembers(t, c, x);
      InSomePrefixStep(t, t.children[v], k, x);
    }
  }

  /** No node is visited before one of its proper descendants, nor twice. */
  predicate PostOrdered(t: Tree, s: seq<nat>)
    requires t.Valid() && NodeList(t, s)
  {
    forall i, j :: 0 <= i < j < |s| ==> !t.Anc(s[i], s[j])
  }

  lemma OrderedConcat(t: Tree, a: seq<nat>, b: seq<nat>)
    requires t.Valid() && NodeList(t, a) && NodeList(t, b)
    requires PostOrdered(t, a) && PostOrdered(t, b)
    requires forall i, j :: 0 <= i < |a| && 0 <= j < |b| ==> !t.Anc(a[i], b[j])
    ensures NodeList(t, a + b) && PostOrdered(t, a + b)
  {
    var s := a + b;
    assert NodeList(t, s) by {
      forall i | 0 <= i < |s| ensures s[i] < t.Size() {
        if i < |a| { assert s[i] == a[i]; } else { assert s[i] == b[i - |a|]; }
      }
    }
    forall i, j | 0 <= i < j < |s|
      ensures !t.Anc(s[i], s[j])
    {
      if j < |a| {
        assert s[i] == a[i] && s[j] == a[j];
      } else if i >= |a| {
        assert s[i] == b[i - |a|] && s[j] == b[j - |a|];
      } else {
        assert s[i] == a[i] && s[j] == b[j - |a|];
      }
    }
  }

  /** Every visit the walk from `v` makes is to a node of the subtree of `v`. */
  lemma {:induction false} PostOrderUnder(t: Tree, v: nat, i: nat)
    requires t.Valid() && v < t.Size() && i < |PostOrder(t, v)|
    ensures t.Anc(v, PostOrder(t, v)[i])
    ensures i < |PostOrder(t, v)| - 1 ==> PostOrder(t, v)[i] != v
    decreases t.Size() - v, 1
  {
    var kids := KidsPostOrder(t, v, |t.children[v]|);
    if i < |kids| {
      var j := KidsUnder(t, v, |t.children[v]|, i);
      var x := kids[i];
      assert PostOrder(t, v)[i] == x;
      ChildAnc(t, v, j);
      AncTrans(t, v, t.children[v][j], x);
      AncBound(t, t.children[v][j], x);
      AncBound(t, v, t.children[v][j]);
    } else {
      assert t.Anc(v, v);
    }
  }

  /** Every visit made by the first `k` iterations is under one of the first `k` children. */
  lemma {:induction false} KidsUnder(t: Tree, v: nat, k: nat, i: nat) returns (j: nat)
    requires t.Valid() && v < t.Size() && k <= |t.children[v]| && i < |KidsPostOrder(t, v, k)|
    ensures j < k && t.Anc(t.children[v][j], KidsPostOrder(t, v, k)[i])
    decreases t.Size() - v, 0, k
  {
    var c := t.children[v][k - 1];
    ChildAnc(t, v, k - 1);
    AncBound(t, v, c);
    var a := KidsPostOrder(t, v, k - 1);
    if i < |a| {
      j := KidsUnder(t, v, k - 1, i);
    } else {
      PostOrderUnder(t, c, i - |a|);
      j := k - 1;
    }
  }

  /**
    `traverseTreeLastOrder` calls back on every node after all of its
    descendants, and on no node twice.
   */
  lemma {:induction false} PostOrderOrdered(t: Tree, v: nat)
    requires t.Valid() && v < t.Size()
    ensures PostOrdered(t, PostOrder(t, v))
    decreases t.Size() - v, 1
  {
    var cs := t.children[v];
    var kids := KidsPostOrder(t, v, |cs|);
    KidsOrdered(t, v, |cs|);
    forall i, j | 0 <= i < |kids| && 0 <= j < |[v]|
      ensures !t.Anc(kids[i], [v][j])
    {
      PostOrderUnder(t, v, i);
      assert PostOrder(t, v)[i] == kids[i];
      AncBound(t, kids[i], v);
      AncBound(t, v, kids[i]);
    }
    OrderedConcat(t, kids, [v]);
  }

  lemma {:induction false} KidsOrdered(t: Tree, v: nat, k: nat)
    requires t.Valid() && v < t.Size() && k <= |t.children[v]|
    ensures PostOrdered(t, KidsPostOrder(t, v, k))
    decreases t.Size() - v, 0, k
  {
    if k > 0 {
      var c := t.children[v][k - 1];
      ChildAnc(t, v, k - 1);
      AncBound(t, v, c);
      KidsOrdered(t, v, k - 1);
      PostOrderOrdered(t, c);
      var a, b := KidsPostOrder(t, v, k - 1), PostOrder(t, c);
      forall i, j | 0 <= i < |a| && 0 <= j < |b|
        ensures !t.Anc(a[i], b[j])
      {
        var ji := KidsUnder(t, v, k - 1, i);
        PostOrderUnder(t, c, j);
        CousinsApart(t, v, ji, k - 1, a[i], b[j]);
      }
      OrderedConcat(t, a, b);
    }
  }

  /** A node under child `j` of `v` is no ancestor of a node under another child `k`. */
  lemma CousinsApart(t: Tree, v: nat, j: nat, k: nat, x: nat, y: nat)
    requires t.Valid() && v < t.Size() && j < |t.children[v]| && k < |t.children[v]| && j != k
    requires x < t.Size() && y < t.Size()
    requires t.Anc(t.children[v][j], x) && t.Anc(t.children[v][k], y)
    ensures !t.Anc(x, y)
  {
    if t.Anc(x, y) {
      ChildAnc(t, v, j);
      AncTrans(t, t.children[v][j], x, y);
      SiblingsDisjoint(t, v, j, k, y);
    }
  }

  // ---- createNodes -------------------------------------------------------------------

  /** `createNodes`: every node of the tree, each after its descendants. */
  method CreateNodes(t: Tree) returns (nodes: seq<nat>)
    requires t.Valid()
    ensures nodes == PostOrder(t, 0)
  {
    nodes := CollectNodes(t, 0, []);
  }

  /** `traverseTreeLastOrder` with the callback of `createNodes`, which pushes the node. */
  method CollectNodes(t: Tree, v: nat, nodes: seq<nat>) returns (r: seq<nat>)
    requires t.Valid() && v < t.Size()
    ensures r == nodes + PostOrder(t, v)
    decreases t.Size() - v
  {
    var children := t.children[v];
    r := nodes;
    for i := 0 to |children|
      invariant r == nodes + KidsPostOrder(t, v, i)
    {
      ChildAnc(t, v, i);
      AncBound(t, v, children[i]);
      r := CollectNodes(t, children[i], r);
      AppendAssoc(nodes, KidsPostOrder(t, v, i), PostOrder(t, children[i]));
    }
    AppendAssoc(nodes, KidsPostOrder(t, v, |children|), [v]);
    r := r + [v];
  }

  /** The node list holds every node of the tree exactly once, each after all of its descendants. */
  lemma CreateNodesComplete(t: Tree)
    requires t.Valid()
    ensures forall x :: 0 <= x < t.Size() ==> x in PostOrder(t, 0)
    ensures PostOrdered(t, PostOrder(t, 0))
  {
    forall x | 0 <= x < t.Size()
      ensures x in PostOrder(t, 0)
    {
      RootIsAncestor(t, x);
      PostOrderMembers(t, 0, x);
    }
    PostOrderOrdered(t, 0);
  }

  // ---- the connectors ----------------------------------------------------------------

  /** A straight segment `{p1, p2}`. */
  datatype Link = Link(p1: Point, p2: Point)

  /**
    `middleTopCenter` / `middleLeftCenter`: the centre of the edge of `u`
    that faces its parent, moved a third of the way back toward the parent's
    far edge.
   */
  function MiddleNear(t: Tree, o: Orient, rs: seq<Rect>, u: nat): (p: Point)
    requires t.Valid() && |rs| == t.Size() && 0 < u < t.Size()
    ensures PMain(p, o) == Mid(rs[u], o)
    ensures PCross(p, o) - Far(rs[t.Parent(u)], o) == (Cross(rs[u], o) - Far(rs[t.Parent(u)], o)) * 2.0 / 3.0
  {
    var p1 := NearCenter(rs[u], o);
    var parentFar := Far(rs[t.Parent(u)], o);
    AxisPoint(o, PMain(p1, o), PCross(p1, o) - (PCross(p1, o) - parentFar) / 3.0)
  }

  /** The stub from a non-root node a third of the way back toward its parent. */
  function ParentLink(t: Tree, o: Orient, rs: seq<Rect>, v: nat): (l: Link)
    requires t.Valid() && |rs| == t.Size() && 0 < v < t.Size()
    ensures l.p1 == NearCenter(rs[v], o)
    ensures l.p2 == MiddleNear(t, o, rs, v)
  {
    var p1 := NearCenter(rs[v], o);
    var parentFar := Far(rs[t.Parent(v)], o);
    Link(p1, AxisPoint(o, PMain(p1, o), PCross(p1, o) - (PCross(p1, o) - parentFar) * 1.0 / 3.0))
  }

  /** The stub from an internal node two thirds of the way toward its first child's near edge. */
  function ChildLink(t: Tree, o: Orient, rs: seq<Rect>, v: nat): (l: Link)
    requires t.Valid() && |rs| == t.Size() && v < t.Size() && t.IsInternal(v)
    ensures l.p1 == FarCenter(rs[v], o)
    ensures PMain(l.p2, o) == Mid(rs[v], o)
    ensures PCross(l.p2, o) - Far(rs[v], o) == (Cross(rs[t.children[v][0]], o) - Far(rs[v], o)) * 2.0 / 3.0
  {
    var p1 := FarCenter(rs[v], o);
    var childNear := Cross(rs[t.children[v][0]], o);
    Link(p1, AxisPoint(o, PMain(p1, o), PCross(p1, o) + (childNear - PCross(p1, o)) * 2.0 / 3.0))
  }

  /** The bar across the children, between the middle points of the first and the last child. */
  function Bar(t: Tree, o: Orient, rs: seq<Rect>, v: nat): Link
    requires t.Valid() && |rs| == t.Size() && v < t.Size() && |t.children[v]| > 1
  {
    var cs := t.children[v];
    ChildAnc(t, v, 0);
    ChildAnc(t, v, |cs| - 1);
    AncBound(t, v, cs[0]);
    AncBound(t, v, cs[|cs| - 1]);
    Link(MiddleNear(t, o, rs, cs[0]), MiddleNear(t, o, rs, cs[|cs| - 1]))
  }

  /** The links the callback pushes for `v`: parent stub, child stub, children's bar, each when it applies. */
  function LinksOf(t: Tree, o: Orient, rs: seq<Rect>, v: nat): (ls: seq<Link>)
    requires t.Valid() && |rs| == t.Size() && v < t.Size()
    ensures |ls| == (if v > 0 then 1 else 0) + (if t.IsInternal(v) then 1 else 0)
                    + (if |t.children[v]| > 1 then 1 else 0)
    ensures |ls| == 0 <==> v == 0 && !t.IsInternal(v)
  {
    (if v > 0 then [ParentLink(t, o, rs, v)] else [])
    + (if t.IsInternal(v) then [ChildLink(t, o, rs, v)] + (if |t.children[v]| > 1 then [Bar(t, o, rs, v)] else [])
       else [])
  }

  lemma ConcatCongruence<T>(x: seq<T>, a: seq<T>, b: seq<T>, a': seq<T>, b': seq<T>)
    requires x == a + b && a == a' && b == b'
    ensures x == a' + b'
  {
  }

  lemma AppendAssoc<T>(a: seq<T>, b: seq<T>, c: seq<T>)
    ensures (a + b) + c == a + (b + c)
  {
  }

  /** Every listed index names a node of the tree. */
  predicate NodeList(t: Tree, nodes: seq<nat>)
  {
    forall i :: 0 <= i < |nodes| ==> nodes[i] < t.Size()
  }

  /** The links pushed while visiting `nodes` in order. */
  function AllLinks(t: Tree, o: Orient, rs: seq<Rect>, nodes: seq<nat>): seq<Link>
    requires t.Valid() && |rs| == t.Size() && NodeList(t, nodes)
  {
    if |nodes| == 0 then []
    else AllLinks(t, o, rs, nodes[..|nodes| - 1]) + LinksOf(t, o, rs, nodes[|nodes| - 1])
  }

  lemma {:induction false} AllLinksConcat(t: Tree, o: Orient, rs: seq<Rect>, a: seq<nat>, b: seq<nat>)
    requires t.Valid() && |rs| == t.Size() && NodeList(t, a) && NodeList(t, b)
    ensures NodeList(t, a + b)
    ensures AllLinks(t, o, rs, a + b) == AllLinks(t, o, rs, a) + AllLinks(t, o, rs, b)
    decreases |b|
  {
    if |b| > 0 {
      var b' := b[..|b| - 1];
      assert (a + b)[..|a + b| - 1] == a + b';
      AllLinksConcat(t, o, rs, a, b');
    } else {
      assert a + b == a;
    }
  }

  /** The links `traverseTreeLastOrder` pushes for the subtree of `v`, following the walk. */
  function SubtreeLinks(t: Tree, o: Orient, rs: seq<Rect>, v: nat): seq<Link>
    requires t.Valid() && |rs| == t.Size() && v < t.Size()
    decreases t.Size() - v, 1
  {
    KidsLinks(t, o, rs, v, |t.children[v]|) + LinksOf(t, o, rs, v)
  }

  function KidsLinks(t: Tree, o: Orient, rs: seq<Rect>, v: nat, k: nat): seq<Link>
    requires t.Valid() && |rs| == t.Size() && v < t.Size() && k <= |t.children[v]|
    decreases t.Size() - v, 0, k
  {
    if k == 0 then []
    else
      ChildAnc(t, v, k - 1);
      AncBound(t, v, t.children[v][k - 1]);
      KidsLinks(t, o, rs, v, k - 1) + SubtreeLinks(t, o, rs, t.children[v][k - 1])
  }

  /** The walk pushes, in order, the links of each node of the node list. */
  lemma {:induction false} SubtreeLinksInNodeOrder(t: Tree, o: Orient, rs: seq<Rect>, v: nat)
    requires t.Valid() && |rs| == t.Size() && v < t.Size()
    ensures SubtreeLinks(t, o, rs, v) == AllLinks(t, o, rs, PostOrder(t, v))
    decreases t.Size() - v, 1
  {
    KidsLinksInNodeOrder(t, o, rs, v, |t.children[v]|);
    PostOrderLinks(t, o, rs, v);
  }

  lemma {:induction false} KidsLinksInNodeOrder(t: Tree, o: Orient, rs: seq<Rect>, v: nat, k: nat)
    requires t.Valid() && |rs| == t.Size() && v < t.Size() && k <= |t.children[v]|
    ensures KidsLinks(t, o, rs, v, k) == AllLinks(t, o, rs, KidsPostOrder(t, v, k))
    decreases t.Size() - v, 0, k
  {
    if k > 0 {
      var c := t.children[v][k - 1];
      assert v < c < t.Size();
      KidsLinksInNodeOrder(t, o, rs, v, k - 1);
      SubtreeLinksInNodeOrder(t, o, rs, c);
      KidsLinksCombine(t, o, rs, v, k, c);
    }
  }

  /** One step of `KidsLinksInNodeOrder`: the `k`-th child's links follow those of the first `k - 1`. */
  lemma KidsLinksCombine(t: Tree, o: Orient, rs: seq<Rect>, v: nat, k: nat, c: nat)
    requires t.Valid() && |rs| == t.Size() && v < t.Size() && 0 < k <= |t.children[v]|
    requires c == t.children[v][k - 1] && c < t.Size()
    requires KidsLinks(t, o, rs, v, k - 1) == AllLinks(t, o, rs, KidsPostOrder(t, v, k - 1))
    requires SubtreeLinks(t, o, rs, c) == AllLinks(t, o, rs, PostOrder(t, c))
    ensures KidsLinks(t, o, rs, v, k) == AllLinks(t, o, rs, KidsPostOrder(t, v, k))
  {
    var _ := KidsLinksUnfold(t, o, rs, v, k);
    KidsLinksStep(t, o, rs, v, k);
    ConcatCongruence(KidsLinks(t, o, rs, v, k), KidsLinks(t, o, rs, v, k - 1), SubtreeLinks(t, o, rs, c),
                     AllLinks(t, o, rs, KidsPostOrder(t, v, k - 1)), AllLinks(t, o, rs, PostOrder(t, c)));
  }

  lemma KidsLinksUnfold(t: Tree, o: Orient, rs: seq<Rect>, v: nat, k: nat) returns (c: nat)
    requires t.Valid() && |rs| == t.Size() && v < t.Size() && 0 < k <= |t.children[v]|
    ensures c == t.children[v][k - 1] && v < c < t.Size()
    ensures KidsLinks(t, o, rs, v, k) == KidsLinks(t, o, rs, v, k - 1) + SubtreeLinks(t, o, rs, c)
  {
    c := t.children[v][k - 1];
    ChildAnc(t, v, k - 1);
    AncBound(t, v, c);
  }

  lemma KidsLinksStep(t: Tree, o: Orient, rs: seq<Rect>, v: nat, k: nat)
    requires t.Valid() && |rs| == t.Size() && v < t.Size() && 0 < k <= |t.children[v]|
    requires t.children[v][k - 1] < t.Size()
    ensures AllLinks(t, o, rs, KidsPostOrder(t, v, k))
            == AllLinks(t, o, rs, KidsPostOrder(t, v, k - 1)) + AllLinks(t, o, rs, PostOrder(t, t.children[v][k - 1]))
  {
    AllLinksConcat(t, o, rs, KidsPostOrder(t, v, k - 1), PostOrder(t, t.children[v][k - 1]));
  }

  lemma PostOrderLinks(t: Tree, o: Orient, rs: seq<Rect>, v: nat)
    requires t.Valid() && |rs| == t.Size() && v < t.Size()
    ensures AllLinks(t, o, rs, PostOrder(t, v))
            == AllLinks(t, o, rs, KidsPostOrder(t, v, |t.children[v]|)) + LinksOf(t, o, rs, v)
  {
    AllLinksConcat(t, o, rs, KidsPostOrder(t, v, |t.children[v]|), [v]);
    assert AllLinks(t, o, rs, [v]) == LinksOf(t, o, rs, v) by {
      assert [v][..0] == [];
    }
  }

  /** `createLinks`: the links of every node, in the order `traverseTreeLastOrder` visits them. */
  method CreateLinks(t: Tree, o: Orient, rects: array<Rect>) returns (links: seq<Link>)
    requires t.Valid() && rects.Length == t.Size()
    ensures links == AllLinks(t, o, rects[..], PostOrder(t, 0))
  {
    links := CollectLinks(t, o, rects, 0, []);
    SubtreeLinksInNodeOrder(t, o, rects[..], 0);
  }

  /** `traverseTreeLastOrder` with the link callback. */
  method CollectLinks(t: Tree, o: Orient, rects: array<Rect>, v: nat, links: seq<Link>) returns (r: seq<Link>)
    requires t.Valid() && rects.Length == t.Size() && v < t.Size()
    ensures r == links + SubtreeLinks(t, o, rects[..], v)
    decreases t.Size() - v
  {
    var children := t.children[v];
    ghost var rs := rects[..];
    r := links;
    for i := 0 to |children|
      invariant r == links + KidsLinks(t, o, rs, v, i)
    {
      ChildAnc(t, v, i);
      AncBound(t, v, children[i]);
      r := CollectLinks(t, o, rects, children[i], r);
      AppendAssoc(links, KidsLinks(t, o, rs, v, i), SubtreeLinks(t, o, rs, children[i]));
    }
    r := LinksCallback(t, o, rects, v, r);
    AppendAssoc(links, KidsLinks(t, o, rs, v, |children|), LinksOf(t, o, rs, v));
  }

  /** `linksCallback` / `vertialLinksCallback`: pushes the links of `v`. */
  method LinksCallback(t: Tree, o: Orient, rects: array<Rect>, v: nat, links: seq<Link>) returns (r: seq<Link>)
    requires t.Valid() && rects.Length == t.Size() && v < t.Size()
    ensures r == links + LinksOf(t, o, rects[..], v)
  {
    ghost var rs := rects[..];
    ghost var toParent: seq<Link> := if v > 0 then [ParentLink(t, o, rs, v)] else [];
    r := links;
    if t.parentNode[v] >= 0 {
      r := r + [ParentLink(t, o, rects[..], v)];
    }
    assert r == links + toParent;
    ghost var mid := r;
    var children := t.children[v];
    if !IsEmpty(children) {
      r := r + [ChildLink(t, o, rects[..], v)];
      if |children| > 1 {
        r := r + [Bar(t, o, rects[..], v)];
        AppendAssoc(mid, [ChildLink(t, o, rs, v)], [Bar(t, o, rs, v)]);
      }
    }
    AppendAssoc(links, toParent, r[|mid|..]);
    assert r == mid + r[|mid|..];
  }

  // ---- how many links -------------------------------------------------------------------

  /** The listed nodes other than the root: each pushes a stub toward its parent. */
  function NonRootsIn(nodes: seq<nat>): set<nat>
  {
    set x | x in nodes && x > 0
  }

  /** The listed internal nodes: each pushes a stub toward its children. */
  function InternalIn(t: Tree, nodes: seq<nat>): set<nat>
    requires t.Valid()
  {
    set x | x in nodes && x < t.Size() && t.IsInternal(x)
  }

  /** The listed nodes with two or more children: each pushes a bar. */
  function WideIn(t: Tree, nodes: seq<nat>): set<nat>
    requires t.Valid()
  {
    set x | x in nodes && x < t.Size() && |t.children[x]| > 1
  }

  /** Visiting nodes once each pushes one link per stub and bar they call for. */
  lemma {:induction false} LinkCountIn(t: Tree, o: Orient, rs: seq<Rect>, nodes: seq<nat>)
    requires t.Valid() && |rs| == t.Size() && NodeList(t, nodes) && PostOrdered(t, nodes)
    ensures |AllLinks(t, o, rs, nodes)| == |NonRootsIn(nodes)| + |InternalIn(t, nodes)| + |WideIn(t, nodes)|
    decreases |nodes|
  {
    if |nodes| == 0 {
      assert NonRootsIn(nodes) == {} && InternalIn(t, nodes) == {} && WideIn(t, nodes) == {};
    } else {
      var p, x := nodes[..|nodes| - 1], nodes[|nodes| - 1];
      assert nodes == p + [x];
      OrderedPrefix(t, nodes);
      LinkCountIn(t, o, rs, p);
      CountStep(t, p, x);
    }
  }

  /** Dropping the last visit keeps the list in order, and that node was not visited before. */
  lemma OrderedPrefix(t: Tree, nodes: seq<nat>)
    requires t.Valid() && NodeList(t, nodes) && PostOrdered(t, nodes) && |nodes| > 0
    ensures NodeList(t, nodes[..|nodes| - 1]) && PostOrdered(t, nodes[..|nodes| - 1])
    ensures nodes[|nodes| - 1] !in nodes[..|nodes| - 1]
  {
    var p, x := nodes[..|nodes| - 1], nodes[|nodes| - 1];
    forall i, j | 0 <= i < j < |p| ensures !t.Anc(p[i], p[j]) {
      assert p[i] == nodes[i] && p[j] == nodes[j];
    }
    forall i | 0 <= i < |p| ensures p[i] != x {
      assert p[i] == nodes[i] && !t.Anc(nodes[i], x);
    }
  }

  /** A new node adds itself to each of the three sets it belongs to. */
  lemma CountStep(t: Tree, p: seq<nat>, x: nat)
    requires t.Valid() && x < t.Size() && x !in p
    ensures |NonRootsIn(p + [x])| == |NonRootsIn(p)| + (if x > 0 then 1 else 0)
    ensures |InternalIn(t, p + [x])| == |InternalIn(t, p)| + (if t.IsInternal(x) then 1 else 0)
    ensures |WideIn(t, p + [x])| == |WideIn(t, p)| + (if |t.children[x]| > 1 then 1 else 0)
  {
    NonRootsStep(p, x);
    InternalStep(t, p, x);
    WideStep(t, p, x);
  }

  lemma NonRootsStep(p: seq<nat>, x: nat)
    requires x !in p
    ensures NonRootsIn(p + [x]) == NonRootsIn(p) + (if x > 0 then {x} else {})
  {
    forall y ensures y in NonRootsIn(p + [x]) <==> y in NonRootsIn(p) || (y == x && x > 0) {
      assert y in p + [x] <==> y in p || y == x;
    }
  }

  lemma InternalStep(t: Tree, p: seq<nat>, x: nat)
    requires t.Valid() && x < t.Size() && x !in p
    ensures InternalIn(t, p + [x]) == InternalIn(t, p) + (if t.IsInternal(x) then {x} else {})
  {
    forall y ensures y in InternalIn(t, p + [x]) <==> y in InternalIn(t, p) || (y == x && t.IsInternal(x)) {
      assert y in p + [x] <==> y in p || y == x;
    }
  }

  lemma WideStep(t: Tree, p: seq<nat>, x: nat)
    requires t.Valid() && x < t.Size() && x !in p
    ensures WideIn(t, p + [x]) == WideIn(t, p) + (if |t.children[x]| > 1 then {x} else {})
  {
    forall y ensures y in WideIn(t, p + [x]) <==> y in WideIn(t, p) || (y == x && |t.children[x]| > 1) {
      assert y in p + [x] <==> y in p || y == x;
    }
  }

  /** The node indices `0, ..., n - 1`. */
  function Indices(n: nat): (r: set<nat>)
    ensures forall u: nat :: u in r <==> u < n
  {
    if n == 0 then {} else Indices(n - 1) + {n - 1}
  }

  lemma {:induction false} IndicesCount(n: nat)
    ensures |Indices(n)| == n
  {
    if n > 0 {
      IndicesCount(n - 1);
      assert n - 1 !in Indices(n - 1);
    }
  }

  /**
    `createLinks` pushes one stub per node other than the root, one stub per
    internal node and one bar per node with two or more children.
   */
  lemma LinkCount(t: Tree, o: Orient, rs: seq<Rect>)
    requires t.Valid() && |rs| == t.Size()
    ensures |AllLinks(t, o, rs, PostOrder(t, 0))|
            == (t.Size() - 1) + |InternalIn(t, PostOrder(t, 0))| + |WideIn(t, PostOrder(t, 0))|
    ensures InternalIn(t, PostOrder(t, 0)) == set u | u in Indices(t.Size()) && t.IsInternal(u)
    ensures WideIn(t, PostOrder(t, 0)) == set u | u in Indices(t.Size()) && |t.children[u]| > 1
  {
    var s := PostOrder(t, 0);
    CreateNodesComplete(t);
    LinkCountIn(t, o, rs, s);
    CompleteListSets(t, s);
  }

  /** A list holding every node, and nothing else, has all the nodes but the root as its non-root nodes. */
  lemma CompleteListSets(t: Tree, s: seq<nat>)
    requires t.Valid() && NodeList(t, s) && forall x :: 0 <= x < t.Size() ==> x in s
    ensures |NonRootsIn(s)| == t.Size() - 1
    ensures InternalIn(t, s) == set u | u in Indices(t.Size()) && t.IsInternal(u)
    ensures WideIn(t, s) == set u | u in Indices(t.Size()) && |t.children[u]| > 1
  {
    IndicesCount(t.Size());
    assert NonRootsIn(s) == Indices(t.Size()) - {0} by {
      forall y: nat ensures y in NonRootsIn(s) <==> 0 < y < t.Size() {
        if 0 < y < t.Size() { assert y in s; }
      }
    }
  }

  // ---- how the connectors join ----------------------------------------------------------

  /** The children of `v` all start at the same layer-axis coordinate. */
  predicate ChildrenAligned(t: Tree, o: Orient, rs: seq<Rect>, v: nat)
    requires t.Valid() && |rs| == t.Size() && v < t.Size()
  {
    forall i :: 0 <= i < |t.children[v]| ==> Cross(rs[t.children[v][i]], o) == Cross(rs[t.children[v][0]], o)
  }

  /**
    The elbow joins up: when the children of `v` are aligned, the stub of
    every child ends on the line of the bar, exactly where the stub of `v`
    ends; every stub runs straight along the layer axis from the middle of
    its node's edge.
   */
  lemma StubsMeet(t: Tree, o: Orient, rs: seq<Rect>, v: nat, i: nat)
    requires t.Valid() && |rs| == t.Size() && v < t.Size() && i < |t.children[v]|
    requires ChildrenAligned(t, o, rs, v)
    ensures var c := t.children[v][i];
            && 0 < c < t.Size()
            && PCross(ParentLink(t, o, rs, c).p2, o) == PCross(ChildLink(t, o, rs, v).p2, o)
            && PMain(ParentLink(t, o, rs, c).p1, o) == PMain(ParentLink(t, o, rs, c).p2, o) == Mid(rs[c], o)
            && PMain(ChildLink(t, o, rs, v).p1, o) == PMain(ChildLink(t, o, rs, v).p2, o) == Mid(rs[v], o)
            && PCross(ParentLink(t, o, rs, c).p1, o) == Cross(rs[c], o)
            && PCross(ChildLink(t, o, rs, v).p1, o) == Far(rs[v], o)
    ensures |t.children[v]| > 1 ==>
              && PCross(Bar(t, o, rs, v).p1, o) == PCross(ChildLink(t, o, rs, v).p2, o)
              && PCross(Bar(t, o, rs, v).p2, o) == PCross(ChildLink(t, o, rs, v).p2, o)
  {
    var c := t.children[v][i];
    ChildAnc(t, v, i);
    AncBound(t, v, c);
    assert t.Parent(c) == v;
    AxisPointCoords(o, Main(rs[c], o) + MainSize(rs[c], o) / 2.0, Cross(rs[c], o));
    AxisPointCoords(o, Main(rs[v], o) + MainSize(rs[v], o) / 2.0, Far(rs[v], o));
    if |t.children[v]| > 1 {
      var last := |t.children[v]| - 1;
      ChildAnc(t, v, last);
      AncBound(t, v, t.children[v][last]);
      assert t.Parent(t.children[v][last]) == v;
      ChildAnc(t, v, 0);
      AncBound(t, v, t.children[v][0]);
      assert t.Parent(t.children[v][0]) == v;
    }
  }

  /**
    A centred parent's stub meets the bar at its midpoint when the first and
    the last child are equally long along the sibling axis.
   */
  lemma StubMeetsBarMiddle(t: Tree, o: Orient, rs: seq<Rect>, v: nat)
    requires t.Valid() && |rs| == t.Size() && v < t.Size() && |t.children[v]| > 1
    requires Centered(t, o, rs, v)
    requires MainSize(rs[t.children[v][0]], o) == MainSize(rs[t.children[v][|t.children[v]| - 1]], o)
    ensures PMain(ChildLink(t, o, rs, v).p2, o) * 2.0
            == PMain(Bar(t, o, rs, v).p1, o) + PMain(Bar(t, o, rs, v).p2, o)
  {
  }
}
