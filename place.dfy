/**
  Pass 1 of the layout, top-down placement (`firstOrderComputeNodeRect`,
  `computeRoot`, `findMaxParentValue`).

  Every node is sized, then placed: along the sibling axis right after its
  previous sibling with `interval` between them, or at its parent's
  coordinate when it is a first child; along the layer axis `layerHeight`
  beyond the furthest far edge of its parent's layer.  The rectangles live in
  an array indexed by node; `PlacedRect` is the rectangle `computeRoot` gives
  a node when the other rectangles are `rs`.
 */
module Place {
  import opened Wrappers
  import opened Geometry
  import opened Tree
  import opened Sizing

  /** `nodeRectBuilder` applied to node `v`: its unplaced size. */
  function SizeOf(t: Tree, cfg: Config, v: nat): Rect
    requires t.Valid() && v < t.Size()
  {
    NodeSize(cfg, t.node[v].name, v == 0)
  }

  /**
    The loop of `findMaxParentValue`: the largest far edge among the listed
    nodes, starting from 0.
   */
  function MaxFar(rs: seq<Rect>, o: Orient, cs: seq<nat>): (m: real)
    requires forall i :: 0 <= i < |cs| ==> cs[i] < |rs|
    ensures m >= 0.0
    ensures forall i :: 0 <= i < |cs| ==> Far(rs[cs[i]], o) <= m
    ensures m == 0.0 || exists i :: 0 <= i < |cs| && m == Far(rs[cs[i]], o)
    decreases |cs|
  {
    if |cs| == 0 then 0.0
    else
      var prefix := cs[..|cs| - 1];
      var maxValue := MaxFar(rs, o, prefix);
      var value := Far(rs[cs[|cs| - 1]], o);
      assert forall i :: 0 <= i < |prefix| ==> prefix[i] == cs[i];
      if value > maxValue then value else maxValue
  }

  /**
    `findMaxParentValue`: 0 for the root; the parent's far edge when the
    parent is the root; otherwise the largest far edge, floored at 0, among
    the children of the grandparent, the parent's own layer.
   */
  function MaxParentValue(t: Tree, o: Orient, rs: seq<Rect>, v: nat): (m: real)
    requires t.Valid() && |rs| == t.Size() && v < t.Size()
    ensures v == 0 ==> m == 0.0
    ensures v > 0 ==> Far(rs[t.Parent(v)], o) <= m
    ensures v > 0 && t.Parent(v) > 0 ==> m == MaxFar(rs, o, t.children[t.Parent(t.Parent(v))])
  {
    if v == 0 then 0.0
    else
      var parent := t.Parent(v);
      if parent == 0 then Far(rs[parent], o)
      else
        var cs := t.children[t.Parent(parent)];
        assert cs[t.Pos(parent)] == parent;
        MaxFar(rs, o, cs)
  }

  /** The layer-axis coordinate `computeRoot` gives `v`: `layerHeight` beyond its parent's layer. */
  function PlacedCross(t: Tree, cfg: Config, rs: seq<Rect>, v: nat): real
    requires t.Valid() && |rs| == t.Size() && v < t.Size()
  {
    if v == 0 then 0.0 else MaxParentValue(t, cfg.orient, rs, v) + cfg.layerHeight
  }

  /**
    The sibling-axis coordinate `computeRoot` gives `v`: `interval` after its
    previous sibling, or its parent's coordinate for a first child.
   */
  function PlacedMain(t: Tree, cfg: Config, rs: seq<Rect>, v: nat): real
    requires t.Valid() && |rs| == t.Size() && v < t.Size()
  {
    match PreSibling(t, v)
    case Some(pre) => Main(rs[pre], cfg.orient) + MainSize(rs[pre], cfg.orient) + cfg.interval
    case None => if v == 0 then 0.0 else Main(rs[t.Parent(v)], cfg.orient)
  }

  /** `computeRoot`: the rectangle node `v` gets when the other rectangles are `rs`. */
  function PlacedRect(t: Tree, cfg: Config, rs: seq<Rect>, v: nat): (r: Rect)
    requires t.Valid() && |rs| == t.Size() && v < t.Size()
    ensures r.w == SizeOf(t, cfg, v).w && r.h == SizeOf(t, cfg, v).h
    ensures Main(r, cfg.orient) == PlacedMain(t, cfg, rs, v) && Cross(r, cfg.orient) == PlacedCross(t, cfg, rs, v)
  {
    WithCross(WithMain(SizeOf(t, cfg, v), cfg.orient, PlacedMain(t, cfg, rs, v)), cfg.orient, PlacedCross(t, cfg, rs, v))
  }

  /** Node `u`'s rectangle is the one `computeRoot` gives it in `rs`. */
  predicate Placed(t: Tree, cfg: Config, rs: seq<Rect>, u: nat)
    requires t.Valid() && |rs| == t.Size() && u < t.Size()
  {
    rs[u] == PlacedRect(t, cfg, rs, u)
  }

  predicate AllPlaced(t: Tree, cfg: Config, rs: seq<Rect>)
    requires t.Valid() && |rs| == t.Size()
  {
    forall u :: 0 <= u < t.Size() ==> Placed(t, cfg, rs, u)
  }

  // ---- what a placement reads -------------------------------------------------

  /**
    The rectangles `computeRoot(u)` reads: the parent's, the previous
    sibling's and those of the parent's layer.
   */
  predicate DependsOn(t: Tree, u: nat, x: nat)
    requires t.Valid() && u < t.Size() && x < t.Size()
  {
    && 0 < u
    && (|| x == t.Parent(u)
        || (t.Pos(u) > 0 && x == t.children[t.Parent(u)][t.Pos(u) - 1])
        || (t.Parent(u) > 0 && x in t.children[t.Parent(t.Parent(u))]))
  }

  lemma {:induction false} MaxFarFrame(rs: seq<Rect>, rs': seq<Rect>, o: Orient, cs: seq<nat>)
    requires |rs| == |rs'| && forall i :: 0 <= i < |cs| ==> cs[i] < |rs|
    requires forall i :: 0 <= i < |cs| ==> rs'[cs[i]] == rs[cs[i]]
    ensures MaxFar(rs', o, cs) == MaxFar(rs, o, cs)
    decreases |cs|
  {
    if |cs| > 0 {
      var prefix := cs[..|cs| - 1];
      assert forall i :: 0 <= i < |prefix| ==> prefix[i] == cs[i];
      MaxFarFrame(rs, rs', o, prefix);
    }
  }

  /** `findMaxParentValue` depends only on the rectangles `computeRoot(u)` reads. */
  lemma MaxParentValueFrame(t: Tree, o: Orient, rs: seq<Rect>, rs': seq<Rect>, u: nat)
    requires t.Valid() && |rs| == t.Size() && |rs'| == t.Size() && u < t.Size()
    requires forall x :: 0 <= x < t.Size() && DependsOn(t, u, x) ==> rs'[x] == rs[x]
    ensures MaxParentValue(t, o, rs', u) == MaxParentValue(t, o, rs, u)
  {
    if u > 0 {
      var p := t.Parent(u);
      assert DependsOn(t, u, p);
      if p > 0 {
        var cs := t.children[t.Parent(p)];
        forall i | 0 <= i < |cs| ensures rs'[cs[i]] == rs[cs[i]] {
          assert DependsOn(t, u, cs[i]);
        }
        MaxFarFrame(rs, rs', o, cs);
      }
    }
  }

  /** A placement depends only on the rectangles it reads. */
  lemma PlacedRectFrame(t: Tree, cfg: Config, rs: seq<Rect>, rs': seq<Rect>, u: nat)
    requires t.Valid() && |rs| == t.Size() && |rs'| == t.Size() && u < t.Size()
    requires forall x :: 0 <= x < t.Size() && DependsOn(t, u, x) ==> rs'[x] == rs[x]
    ensures PlacedRect(t, cfg, rs', u) == PlacedRect(t, cfg, rs, u)
  {
    MaxParentValueFrame(t, cfg.orient, rs, rs', u);
    if u > 0 {
      var p := t.Parent(u);
      assert DependsOn(t, u, p);
      var pre := PreSibling(t, u);
      if pre.Some? {
        assert pre.value == t.children[p][t.Pos(u) - 1];
        assert DependsOn(t, u, pre.value);
      }
    }
  }

  /** `computeRoot(u)` never reads anything inside `u`'s own subtree. */
  lemma DependsOutside(t: Tree, u: nat, x: nat)
    requires t.Valid() && u < t.Size() && x < t.Size() && DependsOn(t, u, x)
    ensures !t.Anc(u, x)
  {
    var p := t.Parent(u);
    if t.Pos(u) > 0 && x == t.children[p][t.Pos(u) - 1] {
      var i := t.Pos(u) - 1;
      assert t.children[p][i] < t.children[p][t.Pos(u)];
      AncBound(t, u, x);
    } else if x == p {
      AncBound(t, u, x);
    } else {
      var gp := t.Parent(p);
      var i :| 0 <= i < |t.children[gp]| && t.children[gp][i] == x;
      assert t.Parent(x) == gp;
      AncBound(t, u, gp);
    }
  }

  /** `u` lies strictly inside the subtree of `w`. */
  predicate Below(t: Tree, w: nat, u: nat)
    requires t.Valid() && u < t.Size()
  {
    u != w && t.Anc(w, u)
  }

  lemma BelowParent(t: Tree, w: nat, u: nat)
    requires t.Valid() && 0 < u < t.Size()
    ensures Below(t, w, t.Parent(u)) ==> Below(t, w, u)
  {
    AncBound(t, w, t.Parent(u));
  }

  lemma BelowSibling(t: Tree, w: nat, s: nat, u: nat)
    requires t.Valid() && 0 < s < t.Size() && 0 < u < t.Size() && t.Parent(s) == t.Parent(u)
    ensures Below(t, w, s) ==> Below(t, w, u)
  {
    BelowParent(t, w, u);
  }

  /** What `computeRoot(u)` reads lies outside every subtree that does not hold `u`. */
  lemma DependsBelow(t: Tree, w: nat, u: nat, x: nat)
    requires t.Valid() && u < t.Size() && x < t.Size() && DependsOn(t, u, x)
    ensures Below(t, w, x) ==> Below(t, w, u)
  {
    var p := t.Parent(u);
    BelowParent(t, w, u);
    if t.Pos(u) > 0 && x == t.children[p][t.Pos(u) - 1] {
      BelowSibling(t, w, x, u);
    }
    if p > 0 && x in t.children[t.Parent(p)] {
      BelowSibling(t, w, x, p);
    }
  }

  /** A placed node stays placed when only nodes strictly below `w` change and it is not one of them. */
  lemma PlacedFrame(t: Tree, cfg: Config, rs: seq<Rect>, rs': seq<Rect>, w: nat, u: nat)
    requires t.Valid() && |rs| == t.Size() && |rs'| == t.Size() && u < t.Size()
    requires forall x :: 0 <= x < t.Size() && !Below(t, w, x) ==> rs'[x] == rs[x]
    requires !Below(t, w, u) && Placed(t, cfg, rs, u)
    ensures Placed(t, cfg, rs', u)
  {
    forall x | 0 <= x < t.Size() && DependsOn(t, u, x)
      ensures rs'[x] == rs[x]
    {
      DependsBelow(t, w, u, x);
    }
    PlacedRectFrame(t, cfg, rs, rs', u);
  }

  /**
    The repeated `computeRoot` of a node is harmless: placing a node a second
    time changes nothing, because its placement does not read its own
    rectangle.
   */
  lemma ComputeRootTwice(t: Tree, cfg: Config, rs: seq<Rect>, v: nat)
    requires t.Valid() && |rs| == t.Size() && v < t.Size()
    ensures var rs1 := rs[v := PlacedRect(t, cfg, rs, v)];
            && Placed(t, cfg, rs1, v)
            && rs1[v := PlacedRect(t, cfg, rs1, v)] == rs1
  {
    var rs1 := rs[v := PlacedRect(t, cfg, rs, v)];
    forall x | 0 <= x < t.Size() && DependsOn(t, v, x)
      ensures rs1[x] == rs[x]
    {
      DependsOutside(t, v, x);
      assert t.Anc(v, v);
    }
    PlacedRectFrame(t, cfg, rs, rs1, v);
  }

  // ---- the pass ------------------------------------------------------------------

  /** `findMaxParentValue` with the far-edge callback (`findMaxParentBottom` / `findMaxParentRight`). */
  method FindMaxParentValue(t: Tree, o: Orient, rects: array<Rect>, v: nat) returns (maxValue: real)
    requires t.Valid() && rects.Length == t.Size() && v < t.Size()
    ensures maxValue == MaxParentValue(t, o, rects[..], v)
  {
    if t.parentNode[v] < 0 {
      return 0.0;
    }
    var parent := t.Parent(v);
    if t.parentNode[parent] < 0 {
      return Far(rects[parent], o);
    }
    maxValue := MaxFarLoop(o, rects, t.children[t.Parent(parent)]);
  }

  /** The loop of `findMaxParentValue` over the grandparent's children. */
  method MaxFarLoop(o: Orient, rects: array<Rect>, children: seq<nat>) returns (maxValue: real)
    requires forall k :: 0 <= k < |children| ==> children[k] < rects.Length
    ensures maxValue == MaxFar(rects[..], o, children)
  {
    ghost var rs := rects[..];
    maxValue := 0.0;
    for i := 0 to |children|
      invariant maxValue == MaxFar(rs, o, children[..i])
    {
      var value := Far(rects[children[i]], o);
      MaxFarStep(rs, o, children, i);
      if value > maxValue {
        maxValue := value;
      }
    }
    assert children[..|children|] == children;
  }

  /** One iteration of the `findMaxParentValue` loop. */
  lemma MaxFarStep(rs: seq<Rect>, o: Orient, cs: seq<nat>, i: nat)
    requires forall k :: 0 <= k < |cs| ==> cs[k] < |rs|
    requires i < |cs|
    ensures var m := MaxFar(rs, o, cs[..i]);
            var value := Far(rs[cs[i]], o);
            MaxFar(rs, o, cs[..i + 1]) == if value > m then value else m
  {
    assert cs[..i + 1][..i] == cs[..i];
  }

  /** `computeRoot`: sizes node `v` and places it against the current rectangles. */
  method ComputeRoot(t: Tree, cfg: Config, rects: array<Rect>, v: nat)
    requires t.Valid() && rects.Length == t.Size() && v < t.Size()
    modifies rects
    ensures rects[..] == old(rects[..])[v := PlacedRect(t, cfg, old(rects[..]), v)]
  {
    var o := cfg.orient;
    var isRoot := t.parentNode[v] < 0;
    assert isRoot <==> v == 0;
    var nodeRect := NodeSize(cfg, t.node[v].name, isRoot);
    var cross := 0.0;
    if !isRoot {
      var maxParentFar := FindMaxParentValue(t, o, rects, v);
      cross := maxParentFar + cfg.layerHeight;
    }
    var main := 0.0;
    var preSibling := PreSibling(t, v);
    if preSibling.Some? {
      var pre := rects[preSibling.value];
      main := Main(pre, o) + MainSize(pre, o) + cfg.interval;
    } else if !isRoot {
      main := Main(rects[t.Parent(v)], o);
    }
    assert cross == PlacedCross(t, cfg, rects[..], v);
    assert main == PlacedMain(t, cfg, rects[..], v);
    rects[v] := WithCross(WithMain(nodeRect, o, main), o, cross);
  }

  /** Some child in the list has `u` in its subtree. */
  predicate InSome(t: Tree, roots: seq<nat>, u: nat)
    requires t.Valid() && u < t.Size()
  {
    exists j :: 0 <= j < |roots| && t.Anc(roots[j], u)
  }

  /** Only nodes of the subtree of `v` differ between `rs` and `rs'`. */
  predicate OutsideUnchanged(t: Tree, rs: seq<Rect>, rs': seq<Rect>, v: nat)
    requires t.Valid() && |rs| == t.Size() && |rs'| == t.Size()
  {
    forall u :: 0 <= u < t.Size() && !t.Anc(v, u) ==> rs'[u] == rs[u]
  }

  /** The first `i` children of `v` are placed. */
  predicate ChildrenPlaced(t: Tree, cfg: Config, rs: seq<Rect>, v: nat, i: nat)
    requires t.Valid() && |rs| == t.Size() && v < t.Size() && i <= |t.children[v]|
  {
    forall j :: 0 <= j < i ==> Placed(t, cfg, rs, t.children[v][j])
  }

  /** The subtrees of the first `i` children of `v` are placed. */
  predicate SubtreesPlaced(t: Tree, cfg: Config, rs: seq<Rect>, v: nat, i: nat)
    requires t.Valid() && |rs| == t.Size() && v < t.Size() && i <= |t.children[v]|
  {
    forall u :: 0 <= u < t.Size() && InSome(t, t.children[v][..i], u) ==> Placed(t, cfg, rs, u)
  }

  /**
    `firstOrderComputeNodeRect`: places `v`, then all of its children in
    order, then recurses into each child.  Afterwards every node of the
    subtree is placed, nothing outside it has changed and `v` holds the
    rectangle it was given by its first placement.
   */
  method FirstOrderComputeNodeRect(t: Tree, cfg: Config, rects: array<Rect>, v: nat)
    requires t.Valid() && rects.Length == t.Size() && v < t.Size()
    modifies rects
    ensures SubtreeDone(t, cfg, old(rects[..]), rects[..], v)
    decreases t.Size() - v, 1
  {
    ghost var orig := rects[..];
    ComputeRoot(t, cfg, rects, v);
    ComputeRootTwice(t, cfg, orig, v);
    assert t.Anc(v, v);
    PlaceChildren(t, cfg, rects, v, orig);
    PlaceSubtrees(t, cfg, rects, v, orig);
    SubtreeCovered(t, cfg, rects[..], v);
  }

  /**
    What `firstOrderComputeNodeRect(v)` leaves behind: nothing outside the
    subtree of `v` has changed, `v` holds the rectangle `computeRoot` gave it
    in `rs`, and every node of the subtree is placed.
   */
  predicate SubtreeDone(t: Tree, cfg: Config, rs: seq<Rect>, rs': seq<Rect>, v: nat)
    requires t.Valid() && |rs| == t.Size() && |rs'| == t.Size() && v < t.Size()
  {
    && OutsideUnchanged(t, rs, rs', v)
    && rs'[v] == PlacedRect(t, cfg, rs, v)
    && forall u :: 0 <= u < t.Size() && t.Anc(v, u) ==> Placed(t, cfg, rs', u)
  }

  /** The first loop of `firstOrderComputeNodeRect`: `computeRoot` on each child of `v` in order. */
  method PlaceChildren(t: Tree, cfg: Config, rects: array<Rect>, v: nat, ghost orig: seq<Rect>)
    requires t.Valid() && rects.Length == t.Size() && |orig| == t.Size() && v < t.Size()
    requires OutsideUnchanged(t, orig, rects[..], v) && rects[v] == PlacedRect(t, cfg, orig, v)
    requires Placed(t, cfg, rects[..], v)
    modifies rects
    ensures OutsideUnchanged(t, orig, rects[..], v) && rects[v] == PlacedRect(t, cfg, orig, v)
    ensures Placed(t, cfg, rects[..], v) && ChildrenPlaced(t, cfg, rects[..], v, |t.children[v]|)
  {
    var children := t.children[v];
    for i := 0 to |children|
      invariant OutsideUnchanged(t, orig, rects[..], v)
      invariant rects[v] == PlacedRect(t, cfg, orig, v)
      invariant Placed(t, cfg, rects[..], v)
      invariant ChildrenPlaced(t, cfg, rects[..], v, i)
    {
      ghost var before := rects[..];
      ChildAnc(t, v, i);
      ComputeRoot(t, cfg, rects, children[i]);
      FirstLoopStep(t, cfg, orig, before, rects[..], v, i);
    }
  }

  /** The second loop of `firstOrderComputeNodeRect`: the recursion into each child of `v` in order. */
  method PlaceSubtrees(t: Tree, cfg: Config, rects: array<Rect>, v: nat, ghost orig: seq<Rect>)
    requires t.Valid() && rects.Length == t.Size() && |orig| == t.Size() && v < t.Size()
    requires rects[v] == PlacedRect(t, cfg, orig, v) && SubtreeLoop(t, cfg, orig, rects[..], v, 0)
    modifies rects
    ensures rects[v] == PlacedRect(t, cfg, orig, v) && SubtreeLoop(t, cfg, orig, rects[..], v, |t.children[v]|)
    decreases t.Size() - v, 0
  {
    var children := t.children[v];
    for i := 0 to |children|
      invariant rects[v] == PlacedRect(t, cfg, orig, v)
      invariant SubtreeLoop(t, cfg, orig, rects[..], v, i)
    {
      ghost var before := rects[..];
      ChildAnc(t, v, i);
      FirstOrderComputeNodeRect(t, cfg, rects, children[i]);
      SecondLoopStep(t, cfg, orig, before, rects[..], v, i);
    }
  }

  /** The second loop after `i` children: `v` and its children are placed, and so are the first `i` subtrees. */
  predicate SubtreeLoop(t: Tree, cfg: Config, orig: seq<Rect>, rs: seq<Rect>, v: nat, i: nat)
    requires t.Valid() && |orig| == t.Size() && |rs| == t.Size() && v < t.Size() && i <= |t.children[v]|
  {
    && OutsideUnchanged(t, orig, rs, v)
    && Placed(t, cfg, rs, v)
    && ChildrenPlaced(t, cfg, rs, v, |t.children[v]|)
    && SubtreesPlaced(t, cfg, rs, v, i)
  }

  /** Once `v`, its children and their subtrees are placed, the whole subtree is. */
  lemma SubtreeCovered(t: Tree, cfg: Config, rs: seq<Rect>, v: nat)
    requires t.Valid() && |rs| == t.Size() && v < t.Size()
    requires Placed(t, cfg, rs, v) && SubtreesPlaced(t, cfg, rs, v, |t.children[v]|)
    ensures forall u :: 0 <= u < t.Size() && t.Anc(v, u) ==> Placed(t, cfg, rs, u)
  {
    forall u | 0 <= u < t.Size() && t.Anc(v, u)
      ensures Placed(t, cfg, rs, u)
    {
      if u != v {
        var j := DescendantViaChild(t, v, u);
        assert t.children[v][..|t.children[v]|][j] == t.children[v][j];
      }
    }
  }

  /** The first loop: placing child `i` does not disturb the placement of `v`. */
  lemma FirstLoopKeepsParent(t: Tree, cfg: Config, before: seq<Rect>, after: seq<Rect>, v: nat, i: nat)
    requires t.Valid() && |before| == t.Size() && v < t.Size() && i < |t.children[v]|
    requires after == before[t.children[v][i] := PlacedRect(t, cfg, before, t.children[v][i])]
    requires Placed(t, cfg, before, v)
    ensures Placed(t, cfg, after, v)
  {
    var c := t.children[v][i];
    forall x | 0 <= x < t.Size() && DependsOn(t, v, x)
      ensures after[x] == before[x]
    {
      DependsOutside(t, v, x);
      ChildAnc(t, v, i);
    }
    PlacedRectFrame(t, cfg, before, after, v);
  }

  /** The first loop: placing child `i` does not disturb the placement of child `j < i`. */
  lemma FirstLoopKeepsEarlier(t: Tree, cfg: Config, before: seq<Rect>, after: seq<Rect>,
                              v: nat, i: nat, j: nat)
    requires t.Valid() && |before| == t.Size() && v < t.Size() && j < i < |t.children[v]|
    requires after == before[t.children[v][i] := PlacedRect(t, cfg, before, t.children[v][i])]
    requires Placed(t, cfg, before, t.children[v][j])
    ensures Placed(t, cfg, after, t.children[v][j])
  {
    var c, u := t.children[v][i], t.children[v][j];
    LaterNotRead(t, v, i, j);
    forall x | 0 <= x < t.Size() && DependsOn(t, u, x)
      ensures after[x] == before[x]
    {
      assert x != c;
    }
    PlacedRectFrame(t, cfg, before, after, u);
  }

  /** `computeRoot` of child `j` never reads a later sibling. */
  lemma LaterNotRead(t: Tree, v: nat, i: nat, j: nat)
    requires t.Valid() && v < t.Size() && j < i < |t.children[v]|
    ensures t.children[v][i] < t.Size() && t.children[v][j] < t.Size()
    ensures !DependsOn(t, t.children[v][j], t.children[v][i])
  {
    var c, u := t.children[v][i], t.children[v][j];
    assert t.Parent(c) == v && t.Parent(u) == v;
    PosUnique(t, u, j);
    if j > 0 {
      ChildrenSorted(t, v, j - 1, i);
    }
  }

  /** The first loop: after placing child `i`, `v` and children `0..i` are placed. */
  lemma FirstLoopStep(t: Tree, cfg: Config, orig: seq<Rect>, before: seq<Rect>, after: seq<Rect>,
                      v: nat, i: nat)
    requires t.Valid() && |orig| == t.Size() && |before| == t.Size() && v < t.Size()
    requires i < |t.children[v]|
    requires after == before[t.children[v][i] := PlacedRect(t, cfg, before, t.children[v][i])]
    requires OutsideUnchanged(t, orig, before, v)
    requires Placed(t, cfg, before, v) && ChildrenPlaced(t, cfg, before, v, i)
    ensures OutsideUnchanged(t, orig, after, v) && after[v] == before[v]
    ensures Placed(t, cfg, after, v) && ChildrenPlaced(t, cfg, after, v, i + 1)
  {
    ChildAnc(t, v, i);
    ComputeRootTwice(t, cfg, before, t.children[v][i]);
    FirstLoopKeepsParent(t, cfg, before, after, v, i);
    forall j | 0 <= j < i
      ensures Placed(t, cfg, after, t.children[v][j])
    {
      FirstLoopKeepsEarlier(t, cfg, before, after, v, i, j);
    }
  }

  /** Recursing into child `c` changes nothing outside the subtree of `v`, nor `v` itself. */
  lemma SecondLoopFrame(t: Tree, orig: seq<Rect>, before: seq<Rect>, after: seq<Rect>, v: nat, i: nat)
    requires t.Valid() && |orig| == t.Size() && |before| == t.Size() && |after| == t.Size()
    requires v < t.Size() && i < |t.children[v]|
    requires OutsideUnchanged(t, orig, before, v)
    requires OutsideUnchanged(t, before, after, t.children[v][i])
    ensures OutsideUnchanged(t, orig, after, v) && after[v] == before[v]
  {
    var c := t.children[v][i];
    ChildAnc(t, v, i);
    forall u | 0 <= u < t.Size() && !t.Anc(v, u)
      ensures after[u] == orig[u]
    {
      if t.Anc(c, u) {
        AncTrans(t, v, c, u);
      }
    }
    AncBound(t, c, v);
  }

  /** Recursing into child `c` changes only nodes strictly below `c`. */
  lemma SecondLoopBelow(t: Tree, cfg: Config, before: seq<Rect>, after: seq<Rect>, c: nat)
    requires t.Valid() && |before| == t.Size() && |after| == t.Size() && c < t.Size()
    requires Placed(t, cfg, before, c)
    requires OutsideUnchanged(t, before, after, c) && after[c] == PlacedRect(t, cfg, before, c)
    ensures forall u :: 0 <= u < t.Size() && !Below(t, c, u) ==> after[u] == before[u]
  {
  }

  /** Recursing into child `i` keeps sibling `j` placed. */
  lemma SiblingStaysPlaced(t: Tree, cfg: Config, before: seq<Rect>, after: seq<Rect>, v: nat, i: nat, j: nat)
    requires t.Valid() && |before| == t.Size() && |after| == t.Size()
    requires v < t.Size() && i < |t.children[v]| && j < |t.children[v]|
    requires forall u :: 0 <= u < t.Size() && !Below(t, t.children[v][i], u) ==> after[u] == before[u]
    requires Placed(t, cfg, before, t.children[v][j])
    ensures Placed(t, cfg, after, t.children[v][j])
  {
    if j != i {
      SiblingsUnrelated(t, v, i, j);
    }
    PlacedFrame(t, cfg, before, after, t.children[v][i], t.children[v][j]);
  }

  /** Recursing into child `i` keeps `v` and all of its children placed. */
  lemma SecondLoopKeepsChildren(t: Tree, cfg: Config, before: seq<Rect>, after: seq<Rect>, v: nat, i: nat)
    requires t.Valid() && |before| == t.Size() && |after| == t.Size()
    requires v < t.Size() && i < |t.children[v]|
    requires forall u :: 0 <= u < t.Size() && !Below(t, t.children[v][i], u) ==> after[u] == before[u]
    requires Placed(t, cfg, before, v) && ChildrenPlaced(t, cfg, before, v, |t.children[v]|)
    ensures Placed(t, cfg, after, v) && ChildrenPlaced(t, cfg, after, v, |t.children[v]|)
  {
    var c := t.children[v][i];
    ChildAnc(t, v, i);
    AncBound(t, c, v);
    PlacedFrame(t, cfg, before, after, c, v);
    forall j | 0 <= j < |t.children[v]|
      ensures Placed(t, cfg, after, t.children[v][j])
    {
      SiblingStaysPlaced(t, cfg, before, after, v, i, j);
    }
  }

  /** Recursing into child `i` adds its subtree to the placed ones and keeps the earlier ones. */
  lemma SecondLoopKeepsSubtrees(t: Tree, cfg: Config, before: seq<Rect>, after: seq<Rect>, v: nat, i: nat)
    requires t.Valid() && |before| == t.Size() && |after| == t.Size()
    requires v < t.Size() && i < |t.children[v]|
    requires forall u :: 0 <= u < t.Size() && !Below(t, t.children[v][i], u) ==> after[u] == before[u]
    requires SubtreesPlaced(t, cfg, before, v, i)
    requires forall u :: 0 <= u < t.Size() && t.Anc(t.children[v][i], u) ==> Placed(t, cfg, after, u)
    ensures SubtreesPlaced(t, cfg, after, v, i + 1)
  {
    var c := t.children[v][i];
    forall u | 0 <= u < t.Size() && InSome(t, t.children[v][..i + 1], u)
      ensures Placed(t, cfg, after, u)
    {
      var j :| 0 <= j < i + 1 && t.Anc(t.children[v][..i + 1][j], u);
      if j < i {
        assert t.children[v][..i][j] == t.children[v][j];
        assert InSome(t, t.children[v][..i], u);
        SiblingsDisjoint(t, v, i, j, u);
        PlacedFrame(t, cfg, before, after, c, u);
      }
    }
  }

  /** The second loop: recursing into child `i` keeps everything placed so far placed. */
  lemma SecondLoopStep(t: Tree, cfg: Config, orig: seq<Rect>, before: seq<Rect>, after: seq<Rect>,
                       v: nat, i: nat)
    requires t.Valid() && |orig| == t.Size() && |before| == t.Size() && |after| == t.Size()
    requires v < t.Size() && i < |t.children[v]|
    requires SubtreeLoop(t, cfg, orig, before, v, i)
    requires SubtreeDone(t, cfg, before, after, t.children[v][i])
    ensures after[v] == before[v] && SubtreeLoop(t, cfg, orig, after, v, i + 1)
  {
    var c := t.children[v][i];
    assert Placed(t, cfg, before, c);
    SecondLoopFrame(t, orig, before, after, v, i);
    SecondLoopBelow(t, cfg, before, after, c);
    SecondLoopKeepsChildren(t, cfg, before, after, v, i);
    SecondLoopKeepsSubtrees(t, cfg, before, after, v, i);
  }

  // ---- what pass 1 establishes ---------------------------------------------------------

  /** The root sits at the origin with its own size. */
  lemma PlacedRoot(t: Tree, cfg: Config, rs: seq<Rect>)
    requires t.Valid() && |rs| == t.Size() && Placed(t, cfg, rs, 0)
    ensures Main(rs[0], cfg.orient) == 0.0 && Cross(rs[0], cfg.orient) == 0.0
    ensures rs[0].w == NodeSize(cfg, t.node[0].name, true).w
    ensures rs[0].h == NodeSize(cfg, t.node[0].name, true).h
  {
  }

  /** A first child starts at its parent's sibling-axis coordinate. */
  lemma PlacedFirstChild(t: Tree, cfg: Config, rs: seq<Rect>, v: nat)
    requires t.Valid() && |rs| == t.Size() && v < t.Size() && |t.children[v]| > 0
    requires Placed(t, cfg, rs, t.children[v][0])
    ensures Main(rs[t.children[v][0]], cfg.orient) == Main(rs[v], cfg.orient)
  {
    var c := t.children[v][0];
    assert t.Parent(c) == v;
    PosUnique(t, c, 0);
  }

  /** Consecutive siblings are separated by exactly `interval`. */
  lemma PlacedSiblingGap(t: Tree, cfg: Config, rs: seq<Rect>, a: nat, b: nat)
    requires t.Valid() && |rs| == t.Size() && a < t.Size() && b < t.Size()
    requires NextSibling(t, a) == Some(b) && Placed(t, cfg, rs, b)
    ensures Main(rs[b], cfg.orient) == Trail(rs[a], cfg.orient) + cfg.interval
  {
    SiblingInverse(t, a, b);
  }

  /** Children of one parent share their layer-axis coordinate. */
  lemma PlacedSiblingsShareCross(t: Tree, cfg: Config, rs: seq<Rect>, a: nat, b: nat)
    requires t.Valid() && |rs| == t.Size() && 0 < a < t.Size() && 0 < b < t.Size()
    requires t.Parent(a) == t.Parent(b) && Placed(t, cfg, rs, a) && Placed(t, cfg, rs, b)
    ensures Cross(rs[a], cfg.orient) == Cross(rs[b], cfg.orient)
  {
    SiblingsShareParentValue(t, cfg.orient, rs, a, b);
    assert Cross(rs[a], cfg.orient) == PlacedCross(t, cfg, rs, a);
    assert Cross(rs[b], cfg.orient) == PlacedCross(t, cfg, rs, b);
  }

  lemma SiblingsShareParentValue(t: Tree, o: Orient, rs: seq<Rect>, a: nat, b: nat)
    requires t.Valid() && |rs| == t.Size() && 0 < a < t.Size() && 0 < b < t.Size()
    requires t.Parent(a) == t.Parent(b)
    ensures MaxParentValue(t, o, rs, a) == MaxParentValue(t, o, rs, b)
  {
  }

  /**
    A child starts at least `layerHeight` beyond its parent's far edge, and
    exactly there when the parent is the root.
   */
  lemma PlacedBelowParent(t: Tree, cfg: Config, rs: seq<Rect>, u: nat)
    requires t.Valid() && |rs| == t.Size() && 0 < u < t.Size() && Placed(t, cfg, rs, u)
    ensures Cross(rs[u], cfg.orient) >= Far(rs[t.Parent(u)], cfg.orient) + cfg.layerHeight
    ensures t.Parent(u) == 0 ==>
              Cross(rs[u], cfg.orient) == Far(rs[0], cfg.orient) + cfg.layerHeight
  {
  }

  /**
    After pass 1 every node starts at least `layerHeight` beyond the far edge
    of each of its proper ancestors.
   */
  lemma {:induction false} PlacedBelowAncestors(t: Tree, cfg: Config, rs: seq<Rect>, a: nat, u: nat)
    requires t.Valid() && |rs| == t.Size() && u < t.Size() && AllPlaced(t, cfg, rs)
    requires SaneSizes(cfg) && cfg.layerHeight >= 0.0
    requires t.Anc(a, u) && a != u
    ensures a < t.Size()
    ensures Far(rs[a], cfg.orient) + cfg.layerHeight <= Cross(rs[u], cfg.orient)
    decreases u
  {
    var o := cfg.orient;
    var p := t.Parent(u);
    PlacedBelowParent(t, cfg, rs, u);
    AncBound(t, a, p);
    if p != a {
      PlacedBelowAncestors(t, cfg, rs, a, p);
      assert Placed(t, cfg, rs, p);
      NodeSizePositive(cfg, t.node[p].name, p == 0);
      assert CrossSize(rs[p], o) > 0.0;
    }
  }
}
