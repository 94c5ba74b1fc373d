/**
  `defaultLayout` and `computeNodeRect`: wrap the caller's data, place every
  node top-down (pass 1), then adjust bottom-up (pass 2).  The lemmas here
  state what the finished layout looks like.
 */
module Layout {
  import opened Geometry
  import opened Tree
  import opened Wrap
  import opened Sizing
  import opened Place
  import opened Adjust
  import opened Links

  /** Every internal node is centred over its children. */
  predicate AllCentered(t: Tree, o: Orient, rs: seq<Rect>)
    requires t.Valid() && |rs| == t.Size()
  {
    forall u :: 0 <= u < t.Size() && t.IsInternal(u) ==> Centered(t, o, rs, u)
  }

  /**
    `defaultLayout(data)`: the wrapped tree and its rectangles.  Pass 1 gives
    `firstPass`, where every node is placed by `computeRoot`; the result is
    pass 2 from the root on those rectangles.  Every node keeps the size and
    the layer-axis coordinate pass 1 gave it, and every internal node ends
    up centred over its children.
   */
  method DefaultLayout(data: RawNode, cfg: Config) returns (t: Tree, rects: array<Rect>, ghost firstPass: seq<Rect>)
    ensures t.Valid() && t.Size() == Size(data) && t.node[0] == data
    ensures rects.Length == t.Size() && |firstPass| == t.Size()
    ensures AllPlaced(t, cfg, firstPass)
    ensures rects[..] == AdjustPass(t, cfg, firstPass, 0)
    ensures AlongOnly(t, cfg.orient, firstPass, rects[..])
    ensures AllCentered(t, cfg.orient, rects[..])
  {
    t := TraverseTreeFirstOrder(data);
    rects := new Rect[t.Size()](_ => Rect(0.0, 0.0, 0.0, 0.0));
    FirstOrderComputeNodeRect(t, cfg, rects, 0);
    firstPass := rects[..];
    forall u | 0 <= u < t.Size()
      ensures Placed(t, cfg, firstPass, u)
    {
      RootIsAncestor(t, u);
    }
    LastOrderAdjustNodePos(t, cfg, rects, 0);
    AdjustPassCentering(t, cfg, firstPass, 0, rects[..]);
    forall u | 0 <= u < t.Size() && t.IsInternal(u)
      ensures Centered(t, cfg.orient, rects[..], u)
    {
      RootIsAncestor(t, u);
      AncBound(t, u, 0);
    }
  }

  /** Nodes other than the root all have the same extent along the sibling axis. */
  lemma NonRootMainSize(t: Tree, cfg: Config, a: nat, b: nat)
    requires t.Valid() && 0 < a < t.Size() && 0 < b < t.Size()
    ensures MainSize(SizeOf(t, cfg, a), cfg.orient) == MainSize(SizeOf(t, cfg, b), cfg.orient)
  {
    NodeSizeTextAxis(cfg, t.node[a].name, false);
    NodeSizeTextAxis(cfg, t.node[b].name, false);
  }

  /**
    In the finished layout the connectors join up: the children of every
    internal node are aligned, so each child's stub ends on the bar where the
    parent's stub ends; and the parent's stub meets the bar at its midpoint.
   */
  lemma LayoutConnectorsJoin(t: Tree, cfg: Config, firstPass: seq<Rect>, rs: seq<Rect>, v: nat)
    requires t.Valid() && |firstPass| == t.Size() && |rs| == t.Size() && v < t.Size() && t.IsInternal(v)
    requires AllPlaced(t, cfg, firstPass) && AlongOnly(t, cfg.orient, firstPass, rs)
    requires AllCentered(t, cfg.orient, rs)
    ensures ChildrenAligned(t, cfg.orient, rs, v)
    ensures |t.children[v]| > 1 ==>
              PMain(ChildLink(t, cfg.orient, rs, v).p2, cfg.orient) * 2.0
              == PMain(Bar(t, cfg.orient, rs, v).p1, cfg.orient) + PMain(Bar(t, cfg.orient, rs, v).p2, cfg.orient)
  {
    var o := cfg.orient;
    var cs := t.children[v];
    ChildAnc(t, v, 0);
    forall i | 0 <= i < |cs|
      ensures Cross(rs[cs[i]], o) == Cross(rs[cs[0]], o)
    {
      ChildAnc(t, v, i);
      assert t.Parent(cs[i]) == v && t.Parent(cs[0]) == v;
      assert Placed(t, cfg, firstPass, cs[i]) && Placed(t, cfg, firstPass, cs[0]);
      PlacedSiblingsShareCross(t, cfg, firstPass, cs[i], cs[0]);
    }
    if |cs| > 1 {
      var first, last := cs[0], cs[|cs| - 1];
      ChildAnc(t, v, |cs| - 1);
      assert Placed(t, cfg, firstPass, first) && Placed(t, cfg, firstPass, last);
      NonRootMainSize(t, cfg, first, last);
      StubMeetsBarMiddle(t, o, rs, v);
    }
  }

  /**
    In the finished layout every node starts at least `layerHeight` beyond
    the far edge of each of its proper ancestors: pass 2 moves nodes along
    the sibling axis only.
   */
  lemma LayoutLayers(t: Tree, cfg: Config, firstPass: seq<Rect>, rs: seq<Rect>, a: nat, u: nat)
    requires t.Valid() && |firstPass| == t.Size() && |rs| == t.Size() && u < t.Size()
    requires AllPlaced(t, cfg, firstPass) && AlongOnly(t, cfg.orient, firstPass, rs)
    requires SaneSizes(cfg) && cfg.layerHeight >= 0.0
    requires t.Anc(a, u) && a != u
    ensures a < t.Size() && Far(rs[a], cfg.orient) + cfg.layerHeight <= Cross(rs[u], cfg.orient)
  {
    PlacedBelowAncestors(t, cfg, firstPass, a, u);
  }
}
