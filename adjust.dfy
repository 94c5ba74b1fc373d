/**
  Pass 2 of the layout, bottom-up adjustment (`lastOrderAdjustNodePos`,
  `makeParentCenter`, `adjustNextSiblings`).

  After its children's subtrees have been adjusted, an internal node is
  centred over the span of its children.  If its subtree then reaches closer
  than `interval` to its next sibling, the subtree and the ones
  `findAllPreSiblings` lists are shifted back along the sibling axis by the
  overlap.  Leaves are left where pass 1 put them.  The pass moves nodes
  along the sibling axis only.
 */
module Adjust {
  import opened Wrappers
  import opened Geometry
  import opened Tree
  import opened Sizing
  import opened Place
  import opened Move
  import opened Siblings

  // ---- makeParentCenter --------------------------------------------------------

  /** Sibling-axis midpoint of a rectangle. */
  function Mid(r: Rect, o: Orient): real
  {
    Main(r, o) + MainSize(r, o) / 2.0
  }

  /**
    `makeParentCenter` on one rectangle: `r` moved along the sibling axis so
    that its midpoint is the midpoint of the span from the first child's
    leading edge to the last child's trailing edge.
   */
  function CenterOver(r: Rect, o: Orient, first: Rect, last: Rect): (r': Rect)
    ensures Mid(r', o) == (Main(first, o) + Trail(last, o)) / 2.0
    ensures r'.w == r.w && r'.h == r.h && Cross(r', o) == Cross(r, o)
  {
    var childLength := Trail(last, o) - Main(first, o);
    var center := Main(first, o) + childLength / 2.0;
    WithMain(r, o, center - MainSize(r, o) / 2.0)
  }

  /** Internal node `u` is centred over the span of its children. */
  predicate Centered(t: Tree, o: Orient, rs: seq<Rect>, u: nat)
    requires t.Valid() && |rs| == t.Size() && u < t.Size() && t.IsInternal(u)
  {
    var cs := t.children[u];
    Mid(rs[u], o) == (Main(rs[cs[0]], o) + Trail(rs[cs[|cs| - 1]], o)) / 2.0
  }

  /** The rectangles after `makeParentCenter(v)`: `v` centred over its children, nothing else moved. */
  function CenterParent(t: Tree, o: Orient, rs: seq<Rect>, v: nat): (rs': seq<Rect>)
    requires t.Valid() && |rs| == t.Size() && v < t.Size() && t.IsInternal(v)
    ensures |rs'| == |rs| && rs' == rs[v := rs'[v]] && Centered(t, o, rs', v)
    ensures rs'[v].w == rs[v].w && rs'[v].h == rs[v].h && Cross(rs'[v], o) == Cross(rs[v], o)
  {
    var cs := t.children[v];
    rs[v := CenterOver(rs[v], o, rs[cs[0]], rs[cs[|cs| - 1]])]
  }

  /** `makeParentCenter(v)`. */
  method MakeParentCenter(t: Tree, o: Orient, rects: array<Rect>, v: nat)
    requires t.Valid() && rects.Length == t.Size() && v < t.Size() && t.IsInternal(v)
    modifies rects
    ensures rects[..] == CenterParent(t, o, old(rects[..]), v)
  {
    var children := t.children[v];
    var first := rects[children[0]];
    var lastNode := rects[children[|children| - 1]];
    rects[v] := CenterOver(rects[v], o, first, lastNode);
  }

  /** Centring is a property of positions relative to each other: a common shift keeps it. */
  lemma CenteredShift(o: Orient, ru: Rect, rf: Rect, rl: Rect, delta: real)
    requires Mid(ru, o) == (Main(rf, o) + Trail(rl, o)) / 2.0
    ensures var d := MainOffset(o, delta);
            Mid(Translate(ru, d), o) == (Main(Translate(rf, d), o) + Trail(Translate(rl, d), o)) / 2.0
  {
    TranslateMain(ru, o, delta);
    TranslateMain(rf, o, delta);
    TranslateMain(rl, o, delta);
  }

  /**
    Shifting whole subtrees keeps an internal node centred unless some, but
    not all, of its children move: that is, unless one of the shifted roots
    is a child of it.
   */
  lemma ShiftedCentered(t: Tree, o: Orient, rs: seq<Rect>, roots: seq<nat>, delta: real, u: nat)
    requires t.Valid() && |rs| == t.Size() && u < t.Size() && t.IsInternal(u)
    requires forall j :: 0 <= j < |roots| ==> 0 < roots[j] < t.Size() && t.Parent(roots[j]) != u
    requires Centered(t, o, rs, u)
    ensures Centered(t, o, Shifted(t, rs, roots, MainOffset(o, delta)), u)
  {
    var cs := t.children[u];
    var f, l := cs[0], cs[|cs| - 1];
    ChildAnc(t, u, 0);
    ChildAnc(t, u, |cs| - 1);
    if InSome(t, roots, u) {
      var j :| 0 <= j < |roots| && t.Anc(roots[j], u);
      AncTrans(t, roots[j], u, f);
      AncTrans(t, roots[j], u, l);
      assert InSome(t, roots, f) && InSome(t, roots, l);
      CenteredShift(o, rs[u], rs[f], rs[l], delta);
    } else {
      forall j | 0 <= j < |roots|
        ensures !t.Anc(roots[j], f) && !t.Anc(roots[j], l)
      {
        assert t.Parent(f) == u && t.Parent(l) == u;
      }
    }
  }

  // ---- adjustNextSiblings ------------------------------------------------------

  /**
    `nextSibling.nodeRect[X] - rightMostOfTree - interval` (its `Y` and
    `findBottom` form in a left-right tree): the room left between the
    subtree of `v` and its next sibling.
   */
  function AdjustOffset(t: Tree, cfg: Config, rs: seq<Rect>, v: nat, next: nat): real
    requires t.Valid() && |rs| == t.Size() && v < t.Size() && next < t.Size()
  {
    Main(rs[next], cfg.orient) - RightMost(t, cfg.orient, rs, v) - cfg.interval
  }

  /**
    The rectangles after `adjustNextSiblings(v, next)`: when the room is
    negative, every subtree `findAllPreSiblings(v)` lists is shifted back by
    it along the sibling axis.
   */
  function Adjusted(t: Tree, cfg: Config, rs: seq<Rect>, v: nat, next: nat): (rs': seq<Rect>)
    requires t.Valid() && |rs| == t.Size() && v < t.Size() && next < t.Size()
    ensures |rs'| == |rs|
  {
    var offset := AdjustOffset(t, cfg, rs, v, next);
    if offset < 0.0 then Shifted(t, rs, PreSiblings(t, v), MainOffset(cfg.orient, offset)) else rs
  }

  /** `adjustNextSiblings(v, next)`, with the intended `findAllPreSiblings`. */
  method AdjustNextSiblings(t: Tree, cfg: Config, rects: array<Rect>, v: nat, next: nat)
    requires t.Valid() && rects.Length == t.Size() && v < t.Size() && next < t.Size()
    modifies rects
    ensures rects[..] == Adjusted(t, cfg, old(rects[..]), v, next)
  {
    var o := cfg.orient;
    var rightMostOfTree := FindRightMost(t, o, rects, v);
    var offset := Main(rects[next], o) - rightMostOfTree - cfg.interval;
    if offset < 0.0 {
      var siblings := FindAllPreSiblings(t, v);
      var d := MainOffset(o, offset);
      ghost var orig := rects[..];
      PreSiblingsIndependent(t, v);
      for i := 0 to |siblings|
        invariant rects[..] == Shifted(t, orig, siblings[..i], d)
      {
        MoveTree(t, rects, siblings[i], d);
        IndependentDisjoint(t, siblings, i);
        ShiftedUnion(t, orig, siblings[..i], [siblings[i]], d);
        assert siblings[..i] + [siblings[i]] == siblings[..i + 1];
      }
      assert siblings[..|siblings|] == siblings;
    }
  }

  /**
    When the subtree of `v` already ends at least `interval` before its next
    sibling, nothing moves.  After the adjustment the subtree of `v` ends at
    least `interval` before its next sibling, which has not moved; when
    there was an overlap the shift is exactly enough, so some node of the
    subtree ends exactly `interval` before it.
   */
  lemma AdjustSeparates(t: Tree, cfg: Config, rs: seq<Rect>, v: nat, next: nat)
    requires t.Valid() && |rs| == t.Size() && v < t.Size() && NextSibling(t, v) == Some(next)
    ensures AdjustOffset(t, cfg, rs, v, next) >= 0.0 ==> Adjusted(t, cfg, rs, v, next) == rs
    ensures Adjusted(t, cfg, rs, v, next)[next] == rs[next]
    ensures forall u :: 0 <= u < t.Size() && t.Anc(v, u) ==>
              Trail(Adjusted(t, cfg, rs, v, next)[u], cfg.orient) + cfg.interval
                <= Main(Adjusted(t, cfg, rs, v, next)[next], cfg.orient)
    ensures AdjustOffset(t, cfg, rs, v, next) < 0.0 && RightMost(t, cfg.orient, rs, v) != 0.0 ==>
              exists u :: 0 <= u < t.Size() && t.Anc(v, u) &&
                Trail(Adjusted(t, cfg, rs, v, next)[u], cfg.orient) + cfg.interval
                  == Main(Adjusted(t, cfg, rs, v, next)[next], cfg.orient)
  {
    var o := cfg.orient;
    var s := PreSiblings(t, v);
    var offset := AdjustOffset(t, cfg, rs, v, next);
    var rs' := Adjusted(t, cfg, rs, v, next);
    TrailWalkBounds(t, o, rs, v, 0.0);
    PreSiblingsMissNext(t, v, next);
    ShiftedKeepsSizes(t, rs, s, o, offset, next);
    forall u | 0 <= u < t.Size() && t.Anc(v, u)
      ensures Trail(rs'[u], o) == Trail(rs[u], o) + (if offset < 0.0 then offset else 0.0)
    {
      PreSiblingsCover(t, v, u);
      ShiftedKeepsSizes(t, rs, s, o, offset, u);
    }
  }

  /** The adjustment moves nodes along the sibling axis only. */
  lemma AdjustedAlongOnly(t: Tree, cfg: Config, rs: seq<Rect>, v: nat, next: nat)
    requires t.Valid() && |rs| == t.Size() && v < t.Size() && next < t.Size()
    ensures AlongOnly(t, cfg.orient, rs, Adjusted(t, cfg, rs, v, next))
  {
    var offset := AdjustOffset(t, cfg, rs, v, next);
    forall u | 0 <= u < t.Size()
      ensures Adjusted(t, cfg, rs, v, next)[u].w == rs[u].w
      ensures Adjusted(t, cfg, rs, v, next)[u].h == rs[u].h
      ensures Cross(Adjusted(t, cfg, rs, v, next)[u], cfg.orient) == Cross(rs[u], cfg.orient)
    {
      ShiftedKeepsSizes(t, rs, PreSiblings(t, v), cfg.orient, offset, u);
    }
  }

  /**
    The adjustment keeps every centred node centred except proper ancestors
    of `v`, whose children it may move only in part.
   */
  lemma AdjustedKeepsCentering(t: Tree, cfg: Config, rs: seq<Rect>, v: nat, next: nat, u: nat)
    requires t.Valid() && |rs| == t.Size() && v < t.Size() && next < t.Size()
    requires u < t.Size() && t.IsInternal(u) && !Below(t, u, v) && Centered(t, cfg.orient, rs, u)
    ensures Centered(t, cfg.orient, Adjusted(t, cfg, rs, v, next), u)
  {
    var offset := AdjustOffset(t, cfg, rs, v, next);
    if offset < 0.0 {
      PreSiblingsParents(t, v);
      ShiftedCentered(t, cfg.orient, rs, PreSiblings(t, v), offset, u);
    }
  }

  // ---- lastOrderAdjustNodePos ---------------------------------------------------

  /** Sizes and layer-axis coordinates agree: only sibling-axis positions differ. */
  predicate AlongOnly(t: Tree, o: Orient, rs: seq<Rect>, rs': seq<Rect>)
    requires |rs| == t.Size() && |rs'| == t.Size()
  {
    forall u :: 0 <= u < t.Size() ==>
      rs'[u].w == rs[u].w && rs'[u].h == rs[u].h && Cross(rs'[u], o) == Cross(rs[u], o)
  }

  /**
    What the pass at `v` promises about centring: every internal node of the
    subtree of `v` ends up centred, and every other centred node that is not
    a proper ancestor of `v` stays centred.
   */
  predicate CenteringKept(t: Tree, o: Orient, rs: seq<Rect>, rs': seq<Rect>, v: nat)
    requires t.Valid() && |rs| == t.Size() && |rs'| == t.Size() && v < t.Size()
  {
    forall u :: (0 <= u < t.Size() && t.IsInternal(u) && !Below(t, u, v) &&
                 (t.Anc(v, u) || Centered(t, o, rs, u))) ==> Centered(t, o, rs', u)
  }

  /** The children loop after `i` children: the same promise for their subtrees, outside `v`'s ancestors. */
  predicate LoopCentering(t: Tree, o: Orient, rs: seq<Rect>, rs': seq<Rect>, v: nat, i: nat)
    requires t.Valid() && |rs| == t.Size() && |rs'| == t.Size() && v < t.Size() && i <= |t.children[v]|
  {
    forall u :: (0 <= u < t.Size() && t.IsInternal(u) && !t.Anc(u, v) &&
                 (InSome(t, t.children[v][..i], u) || Centered(t, o, rs, u))) ==> Centered(t, o, rs', u)
  }

  /**
    The rectangles after `lastOrderAdjustNodePos(v)`: a leaf is left alone;
    otherwise the children's subtrees are adjusted in order, `v` is centred
    over its children, and, when `v` has a next sibling, its subtree is
    separated from that sibling.
   */
  function AdjustPass(t: Tree, cfg: Config, rs: seq<Rect>, v: nat): (rs': seq<Rect>)
    requires t.Valid() && |rs| == t.Size() && v < t.Size()
    ensures |rs'| == t.Size()
    decreases t.Size() - v, 1, 0
  {
    if !t.IsInternal(v) then rs
    else
      var centred := CenterParent(t, cfg.orient, AdjustChildren(t, cfg, rs, v, |t.children[v]|), v);
      match NextSibling(t, v)
      case None => centred
      case Some(next) => Adjusted(t, cfg, centred, v, next)
  }

  /** The rectangles after the passes at the first `i` children of `v`, one after the other. */
  function AdjustChildren(t: Tree, cfg: Config, rs: seq<Rect>, v: nat, i: nat): (rs': seq<Rect>)
    requires t.Valid() && |rs| == t.Size() && v < t.Size() && i <= |t.children[v]|
    ensures |rs'| == t.Size()
    decreases t.Size() - v, 0, i
  {
    if i == 0 then rs
    else AdjustPass(t, cfg, AdjustChildren(t, cfg, rs, v, i - 1), t.children[v][i - 1])
  }

  /**
    `lastOrderAdjustNodePos(v)`: adjusts the children's subtrees in order,
    then centres `v` and separates its subtree from its next sibling.  The
    new rectangles are `AdjustPass` of the old ones; the lemmas below state
    what that pass promises.
   */
  method LastOrderAdjustNodePos(t: Tree, cfg: Config, rects: array<Rect>, v: nat)
    requires t.Valid() && rects.Length == t.Size() && v < t.Size()
    modifies rects
    ensures rects[..] == AdjustPass(t, cfg, old(rects[..]), v)
    decreases t.Size() - v
  {
    ghost var orig := rects[..];
    var children := t.children[v];
    if IsEmpty(children) {
      return;
    }
    for i := 0 to |children|
      invariant rects[..] == AdjustChildren(t, cfg, orig, v, i)
    {
      LastOrderAdjustNodePos(t, cfg, rects, children[i]);
    }
    MakeParentCenter(t, cfg.orient, rects, v);
    var nextSibling := NextSibling(t, v);
    if nextSibling.Some? {
      AdjustNextSiblings(t, cfg, rects, v, nextSibling.value);
    }
  }

  /** The subtree of `v` ends at least `interval` before `next`. */
  predicate Separated(t: Tree, cfg: Config, rs: seq<Rect>, v: nat, next: nat)
    requires t.Valid() && |rs| == t.Size() && next < t.Size()
  {
    forall u :: 0 <= u < t.Size() && t.Anc(v, u) ==> Trail(rs[u], cfg.orient) + cfg.interval <= Main(rs[next], cfg.orient)
  }

  /** Only the subtree of `v` and the subtrees hanging before its path may differ. */
  predicate PassFrame(t: Tree, rs: seq<Rect>, rs': seq<Rect>, v: nat)
    requires t.Valid() && |rs| == t.Size() && |rs'| == t.Size() && v < t.Size()
  {
    forall u :: 0 <= u < t.Size() && !t.Anc(v, u) && !InSome(t, LeftRoots(t, v), u) ==> rs'[u] == rs[u]
  }

  /**
    The pass at `v` moves nodes along the sibling axis only, leaves a leaf
    alone, centres every internal node of the subtree of `v` and keeps every
    other centred node centred, except the proper ancestors of `v`.
   */
  lemma {:induction false} AdjustPassCentering(t: Tree, cfg: Config, rs: seq<Rect>, v: nat, rs': seq<Rect>)
    requires t.Valid() && |rs| == t.Size() && v < t.Size() && rs' == AdjustPass(t, cfg, rs, v)
    ensures AlongOnly(t, cfg.orient, rs, rs') && CenteringKept(t, cfg.orient, rs, rs', v)
    ensures !t.IsInternal(v) ==> rs' == rs
    decreases t.Size() - v, 1, 0, 0
  {
    var o := cfg.orient;
    if t.IsInternal(v) {
      var n := |t.children[v]|;
      var settled := AdjustChildren(t, cfg, rs, v, n);
      AdjustChildrenCentering(t, cfg, rs, v, n, settled);
      var centred := CenterParent(t, o, settled, v);
      CenterStep(t, o, rs, settled, centred, v);
      if NextSibling(t, v).Some? {
        AdjustStep(t, cfg, rs, centred, v, NextSibling(t, v).value);
      }
    } else {
      forall u | 0 <= u < t.Size() && t.Anc(v, u)
        ensures u == v
      {
        ProperDescendant(t, v, u);
      }
    }
  }

  lemma {:induction false} AdjustChildrenCentering(t: Tree, cfg: Config, rs: seq<Rect>, v: nat, i: nat, rs': seq<Rect>)
    requires t.Valid() && |rs| == t.Size() && v < t.Size() && i <= |t.children[v]|
    requires rs' == AdjustChildren(t, cfg, rs, v, i)
    ensures AlongOnly(t, cfg.orient, rs, rs') && LoopCentering(t, cfg.orient, rs, rs', v, i)
    decreases t.Size() - v, 0, i, 0
  {
    if i > 0 {
      var before := AdjustChildrenLast(t, cfg, rs, v, i);
      ChildStep(t, cfg, rs, before, rs', v, i - 1);
    } else {
      LoopCenteringStart(t, cfg.orient, rs, v);
    }
  }

  /** The passes at the first `i` children are those at the first `i - 1`, then the pass at child `i - 1`. */
  lemma AdjustChildrenLast(t: Tree, cfg: Config, rs: seq<Rect>, v: nat, i: nat) returns (before: seq<Rect>)
    requires t.Valid() && |rs| == t.Size() && v < t.Size() && 0 < i <= |t.children[v]|
    ensures |before| == t.Size() && before == AdjustChildren(t, cfg, rs, v, i - 1)
    ensures t.children[v][i - 1] < t.Size()
    ensures AdjustChildren(t, cfg, rs, v, i) == AdjustPass(t, cfg, before, t.children[v][i - 1])
  {
    before := AdjustChildren(t, cfg, rs, v, i - 1);
  }

  lemma LoopCenteringStart(t: Tree, o: Orient, rs: seq<Rect>, v: nat)
    requires t.Valid() && |rs| == t.Size() && v < t.Size()
    ensures LoopCentering(t, o, rs, rs, v, 0)
  {
    forall u | 0 <= u < t.Size()
      ensures !InSome(t, t.children[v][..0], u)
    {
    }
  }

  /**
    The pass at `v` changes nothing outside the subtree of `v` and the
    subtrees hanging before the path from the root to `v`: in particular no
    ancestor of `v` and nothing after it moves.
   */
  lemma {:induction false} AdjustPassFrame(t: Tree, cfg: Config, rs: seq<Rect>, v: nat, rs': seq<Rect>)
    requires t.Valid() && |rs| == t.Size() && v < t.Size() && rs' == AdjustPass(t, cfg, rs, v)
    ensures PassFrame(t, rs, rs', v)
    decreases t.Size() - v, 1, 0, 0
  {
    if t.IsInternal(v) {
      var settled := AdjustChildren(t, cfg, rs, v, |t.children[v]|);
      AdjustChildrenFrame(t, cfg, rs, v, |t.children[v]|, settled);
      var centred := CenterParent(t, cfg.orient, settled, v);
      assert t.Anc(v, v);
      if NextSibling(t, v).Some? {
        var next := NextSibling(t, v).value;
        forall u | 0 <= u < t.Size() && !t.Anc(v, u) && !InSome(t, LeftRoots(t, v), u)
          ensures Adjusted(t, cfg, centred, v, next)[u] == centred[u]
        {
          if InSome(t, PreSiblings(t, v), u) {
            PreSiblingsLeft(t, v, u);
          }
        }
      }
    }
  }

  lemma {:induction false} AdjustChildrenFrame(t: Tree, cfg: Config, rs: seq<Rect>, v: nat, i: nat, rs': seq<Rect>)
    requires t.Valid() && |rs| == t.Size() && v < t.Size() && i <= |t.children[v]|
    requires rs' == AdjustChildren(t, cfg, rs, v, i)
    ensures PassFrame(t, rs, rs', v)
    decreases t.Size() - v, 0, i, 0
  {
    if i > 0 {
      var before := AdjustChildrenLast(t, cfg, rs, v, i);
      ChildFrameStep(t, cfg, rs, before, rs', v, i - 1);
    }
  }

  /** The region of a child lies within the region of its parent. */
  lemma {:induction false} ChildFrameStep(t: Tree, cfg: Config, rs: seq<Rect>, before: seq<Rect>, after: seq<Rect>, v: nat, i: nat)
    requires t.Valid() && |rs| == t.Size() && v < t.Size() && i < |t.children[v]| && t.children[v][i] < t.Size()
    requires before == AdjustChildren(t, cfg, rs, v, i) && after == AdjustPass(t, cfg, before, t.children[v][i])
    ensures PassFrame(t, rs, after, v)
    decreases t.Size() - v, 0, i, 1
  {
    AdjustChildrenFrame(t, cfg, rs, v, i, before);
    ChildAnc(t, v, i);
    AdjustPassFrame(t, cfg, before, t.children[v][i], after);
    forall u | 0 <= u < t.Size() && !t.Anc(v, u) && !InSome(t, LeftRoots(t, v), u)
      ensures after[u] == rs[u]
    {
      ChildOutside(t, v, i, u);
    }
  }

  /** What lies outside the region of `v` lies outside the region of each child of `v`. */
  lemma ChildOutside(t: Tree, v: nat, i: nat, u: nat)
    requires t.Valid() && v < t.Size() && i < |t.children[v]| && u < t.Size()
    requires !t.Anc(v, u) && !InSome(t, LeftRoots(t, v), u)
    ensures t.children[v][i] < t.Size()
    ensures !t.Anc(t.children[v][i], u) && !InSome(t, LeftRoots(t, t.children[v][i]), u)
  {
    var c := t.children[v][i];
    ChildAnc(t, v, i);
    if t.Anc(c, u) {
      AncTrans(t, v, c, u);
    }
    ChildLeftRoots(t, v, i);
    InSomeConcat(t, t.children[v][..i], LeftRoots(t, v), u);
    if InSome(t, t.children[v][..i], u) {
      var j :| 0 <= j < i && t.Anc(t.children[v][..i][j], u);
      ChildAnc(t, v, j);
      AncTrans(t, v, t.children[v][j], u);
    }
  }

  /**
    The pass at `v` never moves the next sibling of `v`; when `v` is
    internal its subtree ends at least `interval` before that sibling.
   */
  lemma AdjustPassSeparates(t: Tree, cfg: Config, rs: seq<Rect>, v: nat, next: nat, rs': seq<Rect>)
    requires t.Valid() && |rs| == t.Size() && v < t.Size() && NextSibling(t, v) == Some(next)
    requires rs' == AdjustPass(t, cfg, rs, v)
    ensures rs'[next] == rs[next]
    ensures t.IsInternal(v) ==> Separated(t, cfg, rs', v, next)
  {
    NextOutsideLeft(t, v, next);
    AdjustPassFrame(t, cfg, rs, v, rs');
    if t.IsInternal(v) {
      var settled := AdjustChildren(t, cfg, rs, v, |t.children[v]|);
      var centred := CenterParent(t, cfg.orient, settled, v);
      AdjustSeparates(t, cfg, centred, v, next);
    }
  }


  lemma AlongOnlyTrans(t: Tree, o: Orient, a: seq<Rect>, b: seq<Rect>, c: seq<Rect>)
    requires |a| == t.Size() && |b| == t.Size() && |c| == t.Size()
    requires AlongOnly(t, o, a, b) && AlongOnly(t, o, b, c)
    ensures AlongOnly(t, o, a, c)
  {
  }

  /** The children loop: the pass at child `i` extends the promise to its subtree. */
  lemma {:induction false} ChildStep(t: Tree, cfg: Config, orig: seq<Rect>, before: seq<Rect>, after: seq<Rect>, v: nat, i: nat)
    requires t.Valid() && |orig| == t.Size() && v < t.Size() && i < |t.children[v]| && t.children[v][i] < t.Size()
    requires before == AdjustChildren(t, cfg, orig, v, i) && after == AdjustPass(t, cfg, before, t.children[v][i])
    ensures AlongOnly(t, cfg.orient, orig, after) && LoopCentering(t, cfg.orient, orig, after, v, i + 1)
    decreases t.Size() - v, 0, i, 1
  {
    var o := cfg.orient;
    var c := t.children[v][i];
    AdjustChildrenCentering(t, cfg, orig, v, i, before);
    ChildAnc(t, v, i);
    AdjustPassCentering(t, cfg, before, c, after);
    AlongOnlyTrans(t, o, orig, before, after);
    forall u | 0 <= u < t.Size() && t.IsInternal(u) && !t.Anc(u, v) &&
               (InSome(t, t.children[v][..i + 1], u) || Centered(t, o, orig, u))
      ensures Centered(t, o, after, u)
    {
      InSomePrefixStep(t, t.children[v], i + 1, u);
      assert !Below(t, u, c);
    }
  }

  /** Centring `v` completes the promise for `v` and disturbs no other node outside its ancestors. */
  lemma CenterStep(t: Tree, o: Orient, orig: seq<Rect>, settled: seq<Rect>, centred: seq<Rect>, v: nat)
    requires t.Valid() && |orig| == t.Size() && |settled| == t.Size() && |centred| == t.Size()
    requires v < t.Size() && t.IsInternal(v)
    requires AlongOnly(t, o, orig, settled) && LoopCentering(t, o, orig, settled, v, |t.children[v]|)
    requires centred == settled[v := centred[v]] && Centered(t, o, centred, v)
    requires centred[v].w == settled[v].w && centred[v].h == settled[v].h
    requires Cross(centred[v], o) == Cross(settled[v], o)
    ensures AlongOnly(t, o, orig, centred) && CenteringKept(t, o, orig, centred, v)
  {
    forall u | 0 <= u < t.Size() && t.IsInternal(u) && !Below(t, u, v) &&
               (t.Anc(v, u) || Centered(t, o, orig, u))
      ensures Centered(t, o, centred, u)
    {
      if u != v {
        CenterStepAt(t, o, orig, settled, centred, v, u);
      }
    }
  }

  /** A node other than `v` that the children loop left centred stays centred when `v` is centred. */
  lemma CenterStepAt(t: Tree, o: Orient, orig: seq<Rect>, settled: seq<Rect>, centred: seq<Rect>, v: nat, u: nat)
    requires t.Valid() && |orig| == t.Size() && |settled| == t.Size() && |centred| == t.Size()
    requires v < t.Size() && LoopCentering(t, o, orig, settled, v, |t.children[v]|)
    requires centred == settled[v := centred[v]]
    requires u < t.Size() && u != v && t.IsInternal(u) && !Below(t, u, v)
    requires t.Anc(v, u) || Centered(t, o, orig, u)
    ensures Centered(t, o, centred, u)
  {
    assert t.children[v][..|t.children[v]|] == t.children[v];
    SubtreeSplit(t, v, u);
    assert [v][0] == v;
    assert Centered(t, o, settled, u);
    var cs := t.children[u];
    ChildAnc(t, u, 0);
    ChildAnc(t, u, |cs| - 1);
    assert cs[0] != v && cs[|cs| - 1] != v;
  }

  /** Separating `v` from its next sibling keeps the promise. */
  lemma AdjustStep(t: Tree, cfg: Config, orig: seq<Rect>, centred: seq<Rect>, v: nat, next: nat)
    requires t.Valid() && |orig| == t.Size() && |centred| == t.Size() && v < t.Size() && next < t.Size()
    requires AlongOnly(t, cfg.orient, orig, centred) && CenteringKept(t, cfg.orient, orig, centred, v)
    ensures AlongOnly(t, cfg.orient, orig, Adjusted(t, cfg, centred, v, next))
    ensures CenteringKept(t, cfg.orient, orig, Adjusted(t, cfg, centred, v, next), v)
  {
    AdjustedAlongOnly(t, cfg, centred, v, next);
    AlongOnlyTrans(t, cfg.orient, orig, centred, Adjusted(t, cfg, centred, v, next));
    forall u | 0 <= u < t.Size() && t.IsInternal(u) && !Below(t, u, v) &&
               (t.Anc(v, u) || Centered(t, cfg.orient, orig, u))
      ensures Centered(t, cfg.orient, Adjusted(t, cfg, centred, v, next), u)
    {
      AdjustedKeepsCentering(t, cfg, centred, v, next, u);
    }
  }

  // ---- a tree on which findAllPreSiblings fails as written ------------------------

  /** Root `R` with children `A` and `B`, and `A` with children `C` and `D`, wrapped breadth-first. */
  function ExampleTree(): Tree
  {
    var c, d := RawNode("C", []), RawNode("D", []);
    var a, b := RawNode("A", [c, d]), RawNode("B", []);
    Tree([RawNode("R", [a, b]), a, b, c, d], [-1, 0, 0, 1, 1], [0, 1, 1, 2, 2], [[1, 2], [3, 4], [], [], []])
  }

  /** The rectangles pass 1 gives `ExampleTree()` under the default configuration. */
  function ExampleRects(): seq<Rect>
  {
    [Rect(0.0, 0.0, 110.0, 38.0), Rect(0.0, 138.0, 46.0, 110.0), Rect(61.0, 138.0, 46.0, 110.0),
     Rect(0.0, 348.0, 46.0, 110.0), Rect(61.0, 348.0, 46.0, 110.0)]
  }

  /**
    On `ExampleTree()` pass 2 centres `A` (its children are leaves and do not
    move), finds that its subtree now reaches past `B` less `interval`, and
    asks for the pre-siblings of `A`.  `A` is a first child of the root, so
    the climb in `findAllPreSiblings` as written reaches the root and fails,
    while the intended list is just `[A]`.
   */
  lemma FindAllPreSiblingsFailsOnExample()
    ensures var t, cfg, rs := ExampleTree(), DefaultConfig, ExampleRects();
            var centred := rs[1 := CenterOver(rs[1], cfg.orient, rs[3], rs[4])];
            && t.Valid() && |rs| == t.Size()
            && AllPlaced(t, cfg, rs)
            && !t.IsInternal(3) && !t.IsInternal(4)
            && NextSibling(t, 1) == Some(2)
            && centred[1] == Rect(30.5, 138.0, 46.0, 110.0)
            && AdjustOffset(t, cfg, centred, 1, 2) == -61.0
            && PreSiblingsAsWritten(t, 1).None?
            && PreSiblings(t, 1) == [1]
  {
    ExampleValid();
    ExamplePositions();
    ExamplePlaced();
    ExampleOverlap();
    ExampleClimb();
  }

  lemma ExampleValid()
    ensures ExampleTree().Valid()
  {
    var t := ExampleTree();
    var pn, cs := t.parentNode, t.children;
    assert pn == [-1, 0, 0, 1, 1] && cs == [[1, 2], [3, 4], [], [], []];
    forall u | 1 <= u < 5
      ensures 0 <= pn[u] < u && t.depth[u] == t.depth[pn[u]] + 1 && u in cs[pn[u]]
    {
      assert cs[pn[u]][(u - 1) % 2] == u;
    }
    forall v, j | 0 <= v < 5 && 0 <= j < |cs[v]|
      ensures v < cs[v][j] < 5 && pn[cs[v][j]] == v
    {
    }
    forall v, i | 0 <= v < 5 && 0 < i < |cs[v]|
      ensures cs[v][i - 1] < cs[v][i]
    {
    }
  }

  lemma ExamplePositions()
    requires ExampleTree().Valid()
    ensures var t := ExampleTree(); t.Pos(1) == 0 && t.Pos(2) == 1 && t.Pos(3) == 0 && t.Pos(4) == 1
  {
    var t := ExampleTree();
    PosUnique(t, 1, 0);
    PosUnique(t, 2, 1);
    PosUnique(t, 3, 0);
    PosUnique(t, 4, 1);
  }

  lemma ExamplePlaced()
    requires ExampleTree().Valid()
    ensures AllPlaced(ExampleTree(), DefaultConfig, ExampleRects())
  {
    forall u | 0 <= u < 5
      ensures Placed(ExampleTree(), DefaultConfig, ExampleRects(), u)
    {
      ExamplePlacedAt(u);
    }
  }

  lemma ExampleSiblings()
    requires ExampleTree().Valid()
    ensures var t := ExampleTree();
            && PreSibling(t, 0).None? && PreSibling(t, 1).None? && PreSibling(t, 2) == Some(1)
            && PreSibling(t, 3).None? && PreSibling(t, 4) == Some(3)
  {
    ExamplePositions();
  }

  lemma ExamplePlacedAt(u: nat)
    requires ExampleTree().Valid() && u < 5
    ensures Placed(ExampleTree(), DefaultConfig, ExampleRects(), u)
  {
    ExampleSize(u);
    if u == 0 {
      ExampleSiblings();
    } else if u <= 2 {
      ExamplePlacedFirstLayer(u);
    } else {
      ExamplePlacedSecondLayer(u);
    }
  }

  lemma ExampleSize(u: nat)
    requires ExampleTree().Valid() && u < 5
    ensures SizeOf(ExampleTree(), DefaultConfig, u)
            == if u == 0 then Rect(0.0, 0.0, 110.0, 38.0) else Rect(0.0, 0.0, 46.0, 110.0)
  {
    assert MinLength(ExampleTree().node[u].name) == 5;
  }

  lemma ExamplePlacedFirstLayer(u: nat)
    requires ExampleTree().Valid() && 1 <= u <= 2
    requires SizeOf(ExampleTree(), DefaultConfig, u) == Rect(0.0, 0.0, 46.0, 110.0)
    ensures Placed(ExampleTree(), DefaultConfig, ExampleRects(), u)
  {
    var t, cfg, rs := ExampleTree(), DefaultConfig, ExampleRects();
    ExampleSiblings();
    assert t.Parent(u) == 0;
    assert PlacedCross(t, cfg, rs, u) == 138.0;
  }

  lemma ExamplePlacedSecondLayer(u: nat)
    requires ExampleTree().Valid() && 3 <= u <= 4
    requires SizeOf(ExampleTree(), DefaultConfig, u) == Rect(0.0, 0.0, 46.0, 110.0)
    ensures Placed(ExampleTree(), DefaultConfig, ExampleRects(), u)
  {
    var t, cfg, rs := ExampleTree(), DefaultConfig, ExampleRects();
    ExampleSiblings();
    assert t.Parent(1) == 0 && t.children[0] == [1, 2];
    assert MaxFar(rs, cfg.orient, [1, 2]) == 248.0 by {
      assert [1, 2][..1] == [1];
      assert [1][..0] == [];
    }
    if u == 3 {
      assert t.Parent(3) == 1;
      assert PlacedCross(t, cfg, rs, 3) == 348.0;
      assert PlacedMain(t, cfg, rs, 3) == 0.0;
    } else {
      assert t.Parent(4) == 1;
      assert PlacedCross(t, cfg, rs, 4) == 348.0;
      assert PlacedMain(t, cfg, rs, 4) == 61.0;
    }
  }

  lemma ExampleOverlap()
    requires ExampleTree().Valid()
    ensures var t, cfg, rs := ExampleTree(), DefaultConfig, ExampleRects();
            var centred := rs[1 := CenterOver(rs[1], cfg.orient, rs[3], rs[4])];
            && !t.IsInternal(3) && !t.IsInternal(4)
            && NextSibling(t, 1) == Some(2)
            && centred[1] == Rect(30.5, 138.0, 46.0, 110.0)
            && AdjustOffset(t, cfg, centred, 1, 2) == -61.0
  {
    var t, cfg, rs := ExampleTree(), DefaultConfig, ExampleRects();
    var centred := rs[1 := CenterOver(rs[1], cfg.orient, rs[3], rs[4])];
    ExamplePositions();
    assert centred[1] == Rect(30.5, 138.0, 46.0, 110.0);
    assert RightMost(t, cfg.orient, centred, 1) == 107.0;
  }

  lemma ExampleClimb()
    requires ExampleTree().Valid()
    ensures PreSiblingsAsWritten(ExampleTree(), 1).None?
    ensures PreSiblings(ExampleTree(), 1) == [1]
  {
    var t := ExampleTree();
    ExamplePositions();
    assert t.children[0][..1] == [1];
  }
}
