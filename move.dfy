/**
  Subtree walks of pass 2: `moveTree` translates every rectangle of a
  subtree, and `findRightMost` / `findBottom` fold the trailing edges of a
  subtree into an accumulator that starts at 0.  Both walk the subtree in
  post-order (`traverseTreeLastOrder`): the children's subtrees first, then
  the node itself.
 */
module Move {
  import opened Geometry
  import opened Tree
  import opened Place

  /** The rectangles after every node in the subtree of some listed root is translated by `d`. */
  function Shifted(t: Tree, rs: seq<Rect>, roots: seq<nat>, d: Point): (rs': seq<Rect>)
    requires t.Valid() && |rs| == t.Size()
    ensures |rs'| == |rs|
  {
    seq(|rs|, u requires 0 <= u < |rs| => if InSome(t, roots, u) then Translate(rs[u], d) else rs[u])
  }

  lemma InSomeConcat(t: Tree, a: seq<nat>, b: seq<nat>, u: nat)
    requires t.Valid() && u < t.Size()
    ensures InSome(t, a + b, u) <==> InSome(t, a, u) || InSome(t, b, u)
  {
    if InSome(t, a + b, u) {
      var j :| 0 <= j < |a + b| && t.Anc((a + b)[j], u);
      if j < |a| {
        assert a[j] == (a + b)[j];
      } else {
        assert b[j - |a|] == (a + b)[j];
      }
    }
    if InSome(t, a, u) {
      var j :| 0 <= j < |a| && t.Anc(a[j], u);
      assert (a + b)[j] == a[j];
    }
    if InSome(t, b, u) {
      var j :| 0 <= j < |b| && t.Anc(b[j], u);
      assert (a + b)[|a| + j] == b[j];
    }
  }

  /** Translating two disjoint families of subtrees one after the other translates their union. */
  lemma ShiftedUnion(t: Tree, rs: seq<Rect>, a: seq<nat>, b: seq<nat>, d: Point)
    requires t.Valid() && |rs| == t.Size()
    requires forall u :: 0 <= u < t.Size() && InSome(t, a, u) ==> !InSome(t, b, u)
    ensures Shifted(t, Shifted(t, rs, a, d), b, d) == Shifted(t, rs, a + b, d)
  {
    forall u | 0 <= u < t.Size()
      ensures Shifted(t, Shifted(t, rs, a, d), b, d)[u] == Shifted(t, rs, a + b, d)[u]
    {
      InSomeConcat(t, a, b, u);
    }
  }

  /** The subtrees of the first `i` children of `v` are disjoint from that of child `i`. */
  lemma ChildSubtreesDisjoint(t: Tree, v: nat, i: nat)
    requires t.Valid() && v < t.Size() && i < |t.children[v]|
    ensures forall u :: 0 <= u < t.Size() && InSome(t, t.children[v][..i], u) ==> !InSome(t, [t.children[v][i]], u)
  {
    forall u | 0 <= u < t.Size() && InSome(t, t.children[v][..i], u)
      ensures !InSome(t, [t.children[v][i]], u)
    {
      var j :| 0 <= j < i && t.Anc(t.children[v][..i][j], u);
      assert t.children[v][..i][j] == t.children[v][j];
      SiblingsDisjoint(t, v, i, j, u);
    }
  }

  /** The subtree of `v` is `v` together with the subtrees of its children. */
  lemma SubtreeSplit(t: Tree, v: nat, u: nat)
    requires t.Valid() && v < t.Size() && u < t.Size()
    ensures InSome(t, [v], u) <==> u == v || InSome(t, t.children[v], u)
    ensures !InSome(t, t.children[v], v)
  {
    assert [v][0] == v;
    ChildrenSubtreesBelow(t, v, u);
    if u != v && t.Anc(v, u) {
      var j := DescendantViaChild(t, v, u);
    }
    ChildrenSubtreesMissParent(t, v);
  }

  lemma ChildrenSubtreesBelow(t: Tree, v: nat, u: nat)
    requires t.Valid() && v < t.Size() && u < t.Size()
    ensures InSome(t, t.children[v], u) ==> t.Anc(v, u)
  {
    if InSome(t, t.children[v], u) {
      var j :| 0 <= j < |t.children[v]| && t.Anc(t.children[v][j], u);
      ChildAnc(t, v, j);
      AncTrans(t, v, t.children[v][j], u);
    }
  }

  lemma ChildrenSubtreesMissParent(t: Tree, v: nat)
    requires t.Valid() && v < t.Size()
    ensures !InSome(t, t.children[v], v)
  {
    forall j | 0 <= j < |t.children[v]|
      ensures !t.Anc(t.children[v][j], v)
    {
      AncBound(t, t.children[v][j], v);
    }
  }

  /**
    `moveTree(tree, offset)`: adds the offset to the position of every node in
    the subtree of `v`; sizes and every other rectangle are left alone.
   */
  method MoveTree(t: Tree, rects: array<Rect>, v: nat, d: Point)
    requires t.Valid() && rects.Length == t.Size() && v < t.Size()
    modifies rects
    ensures rects[..] == Shifted(t, old(rects[..]), [v], d)
    decreases t.Size() - v
  {
    ghost var orig := rects[..];
    var children := t.children[v];
    for i := 0 to |children|
      invariant rects[..] == Shifted(t, orig, children[..i], d)
    {
      ChildAnc(t, v, i);
      MoveTree(t, rects, children[i], d);
      ShiftChildStep(t, orig, v, i, d);
    }
    assert children[..|children|] == children;
    ShiftRootStep(t, orig, v, d);
    rects[v] := Translate(rects[v], d);
  }

  /** Moving the subtree of child `i` after those of the first `i` children moves the first `i + 1`. */
  lemma ShiftChildStep(t: Tree, rs: seq<Rect>, v: nat, i: nat, d: Point)
    requires t.Valid() && |rs| == t.Size() && v < t.Size() && i < |t.children[v]|
    ensures var cs := t.children[v];
            Shifted(t, Shifted(t, rs, cs[..i], d), [cs[i]], d) == Shifted(t, rs, cs[..i + 1], d)
  {
    var cs := t.children[v];
    ChildSubtreesDisjoint(t, v, i);
    ShiftedUnion(t, rs, cs[..i], [cs[i]], d);
    assert cs[..i] + [cs[i]] == cs[..i + 1];
  }

  /** Moving the children's subtrees and then `v` itself moves the subtree of `v`. */
  lemma ShiftRootStep(t: Tree, rs: seq<Rect>, v: nat, d: Point)
    requires t.Valid() && |rs| == t.Size() && v < t.Size()
    ensures var kids := Shifted(t, rs, t.children[v], d);
            kids[v := Translate(kids[v], d)] == Shifted(t, rs, [v], d)
  {
    var kids := Shifted(t, rs, t.children[v], d);
    forall u | 0 <= u < t.Size()
      ensures kids[v := Translate(kids[v], d)][u] == Shifted(t, rs, [v], d)[u]
    {
      SubtreeSplit(t, v, u);
    }
  }

  /** Translation moves positions only. */
  lemma ShiftedKeepsSizes(t: Tree, rs: seq<Rect>, roots: seq<nat>, o: Orient, delta: real, u: nat)
    requires t.Valid() && |rs| == t.Size() && u < t.Size()
    ensures var rs' := Shifted(t, rs, roots, MainOffset(o, delta));
            && rs'[u].w == rs[u].w && rs'[u].h == rs[u].h
            && Cross(rs'[u], o) == Cross(rs[u], o)
            && Main(rs'[u], o) == Main(rs[u], o) + (if InSome(t, roots, u) then delta else 0.0)
  {
    TranslateMain(rs[u], o, delta);
  }

  // ---- findRightMost / findBottom --------------------------------------------------

  /**
    The accumulator after the post-order walk of `v`'s subtree: the children's
    subtrees are folded first, then `v`'s own trailing edge; a larger edge
    replaces the accumulator.
   */
  function TrailWalk(t: Tree, o: Orient, rs: seq<Rect>, v: nat, acc: real): real
    requires t.Valid() && |rs| == t.Size() && v < t.Size()
    decreases t.Size() - v, 1
  {
    var x := KidsWalk(t, o, rs, v, |t.children[v]|, acc);
    var right := Trail(rs[v], o);
    if right > x then right else x
  }

  /** The accumulator after walking the subtrees of the first `k` children of `v`. */
  function KidsWalk(t: Tree, o: Orient, rs: seq<Rect>, v: nat, k: nat, acc: real): real
    requires t.Valid() && |rs| == t.Size() && v < t.Size() && k <= |t.children[v]|
    decreases t.Size() - v, 0, k
  {
    if k == 0 then acc
    else TrailWalk(t, o, rs, t.children[v][k - 1], KidsWalk(t, o, rs, v, k - 1, acc))
  }

  /** `findRightMost(v)` (`findBottom(v)` in a left-right tree). */
  function RightMost(t: Tree, o: Orient, rs: seq<Rect>, v: nat): real
    requires t.Valid() && |rs| == t.Size() && v < t.Size()
  {
    TrailWalk(t, o, rs, v, 0.0)
  }

  /**
    The walk computes the larger of the accumulator and the largest trailing
    edge in the subtree: it bounds both, and equals one of them.
   */
  lemma {:induction false} TrailWalkBounds(t: Tree, o: Orient, rs: seq<Rect>, v: nat, acc: real)
    requires t.Valid() && |rs| == t.Size() && v < t.Size()
    ensures acc <= TrailWalk(t, o, rs, v, acc)
    ensures forall u :: 0 <= u < t.Size() && t.Anc(v, u) ==> Trail(rs[u], o) <= TrailWalk(t, o, rs, v, acc)
    ensures || TrailWalk(t, o, rs, v, acc) == acc
            || exists u :: 0 <= u < t.Size() && t.Anc(v, u) && TrailWalk(t, o, rs, v, acc) == Trail(rs[u], o)
    decreases t.Size() - v, 1
  {
    var k := |t.children[v]|;
    KidsWalkBounds(t, o, rs, v, k, acc);
    assert t.children[v][..k] == t.children[v];
    TrailWalkCovers(t, o, rs, v, acc);
    TrailWalkAttained(t, o, rs, v, acc);
  }

  /** The walk of `v` is at least every trailing edge in the subtree once the children's walk is. */
  lemma TrailWalkCovers(t: Tree, o: Orient, rs: seq<Rect>, v: nat, acc: real)
    requires t.Valid() && |rs| == t.Size() && v < t.Size()
    requires forall u :: 0 <= u < t.Size() && InSome(t, t.children[v], u) ==>
               Trail(rs[u], o) <= KidsWalk(t, o, rs, v, |t.children[v]|, acc)
    ensures forall u :: 0 <= u < t.Size() && t.Anc(v, u) ==> Trail(rs[u], o) <= TrailWalk(t, o, rs, v, acc)
  {
    var x, w := KidsWalk(t, o, rs, v, |t.children[v]|, acc), TrailWalk(t, o, rs, v, acc);
    assert x <= w && Trail(rs[v], o) <= w;
    forall u | 0 <= u < t.Size() && t.Anc(v, u) && u != v
      ensures Trail(rs[u], o) <= w
    {
      var j := DescendantViaChild(t, v, u);
      assert InSome(t, t.children[v], u);
    }
  }

  /** The walk of `v` is the accumulator or a trailing edge in the subtree once the children's walk is. */
  lemma TrailWalkAttained(t: Tree, o: Orient, rs: seq<Rect>, v: nat, acc: real)
    requires t.Valid() && |rs| == t.Size() && v < t.Size()
    requires var x := KidsWalk(t, o, rs, v, |t.children[v]|, acc);
             x == acc || exists u :: 0 <= u < t.Size() && InSome(t, t.children[v], u) && x == Trail(rs[u], o)
    ensures || TrailWalk(t, o, rs, v, acc) == acc
            || exists u :: 0 <= u < t.Size() && t.Anc(v, u) && TrailWalk(t, o, rs, v, acc) == Trail(rs[u], o)
  {
    var x, w := KidsWalk(t, o, rs, v, |t.children[v]|, acc), TrailWalk(t, o, rs, v, acc);
    assert w == x || w == Trail(rs[v], o);
    assert t.Anc(v, v);
    if w == x && x != acc {
      var u :| 0 <= u < t.Size() && InSome(t, t.children[v], u) && x == Trail(rs[u], o);
      var j :| 0 <= j < |t.children[v]| && t.Anc(t.children[v][j], u);
      ChildAnc(t, v, j);
      AncTrans(t, v, t.children[v][j], u);
    }
  }

  lemma {:induction false} KidsWalkBounds(t: Tree, o: Orient, rs: seq<Rect>, v: nat, k: nat, acc: real)
    requires t.Valid() && |rs| == t.Size() && v < t.Size() && k <= |t.children[v]|
    ensures acc <= KidsWalk(t, o, rs, v, k, acc)
    ensures forall u :: 0 <= u < t.Size() && InSome(t, t.children[v][..k], u) ==>
              Trail(rs[u], o) <= KidsWalk(t, o, rs, v, k, acc)
    ensures || KidsWalk(t, o, rs, v, k, acc) == acc
            || exists u :: 0 <= u < t.Size() && InSome(t, t.children[v][..k], u)
                           && KidsWalk(t, o, rs, v, k, acc) == Trail(rs[u], o)
    decreases t.Size() - v, 0, k
  {
    if k > 0 {
      var c := t.children[v][k - 1];
      var x := KidsWalk(t, o, rs, v, k - 1, acc);
      ChildAnc(t, v, k - 1);
      KidsWalkBounds(t, o, rs, v, k - 1, acc);
      TrailWalkBounds(t, o, rs, c, x);
      KidsWalkStep(t, o, rs, v, k, acc);
    }
  }

  /** One step of `KidsWalkBounds`: walking child `k - 1` extends the bounds to the first `k` subtrees. */
  lemma KidsWalkStep(t: Tree, o: Orient, rs: seq<Rect>, v: nat, k: nat, acc: real)
    requires t.Valid() && |rs| == t.Size() && v < t.Size() && 0 < k <= |t.children[v]|
    requires t.children[v][k - 1] < t.Size()
    requires var x := KidsWalk(t, o, rs, v, k - 1, acc);
             && acc <= x
             && (forall u :: 0 <= u < t.Size() && InSome(t, t.children[v][..k - 1], u) ==> Trail(rs[u], o) <= x)
             && (x == acc || exists u :: 0 <= u < t.Size() && InSome(t, t.children[v][..k - 1], u) && x == Trail(rs[u], o))
    requires var c, x := t.children[v][k - 1], KidsWalk(t, o, rs, v, k - 1, acc);
             var w := TrailWalk(t, o, rs, c, x);
             && x <= w
             && (forall u :: 0 <= u < t.Size() && t.Anc(c, u) ==> Trail(rs[u], o) <= w)
             && (w == x || exists u :: 0 <= u < t.Size() && t.Anc(c, u) && w == Trail(rs[u], o))
    ensures acc <= KidsWalk(t, o, rs, v, k, acc)
    ensures forall u :: 0 <= u < t.Size() && InSome(t, t.children[v][..k], u) ==>
              Trail(rs[u], o) <= KidsWalk(t, o, rs, v, k, acc)
    ensures || KidsWalk(t, o, rs, v, k, acc) == acc
            || exists u :: 0 <= u < t.Size() && InSome(t, t.children[v][..k], u)
                           && KidsWalk(t, o, rs, v, k, acc) == Trail(rs[u], o)
  {
    var c := t.children[v][k - 1];
    forall u | 0 <= u < t.Size()
      ensures InSome(t, t.children[v][..k], u) <==> InSome(t, t.children[v][..k - 1], u) || t.Anc(c, u)
    {
      InSomePrefixStep(t, t.children[v], k, u);
    }
  }

  /** The subtrees of the first `k` roots are those of the first `k - 1` and that of root `k - 1`. */
  lemma InSomePrefixStep(t: Tree, cs: seq<nat>, k: nat, u: nat)
    requires t.Valid() && u < t.Size() && 0 < k <= |cs|
    ensures InSome(t, cs[..k], u) <==> InSome(t, cs[..k - 1], u) || t.Anc(cs[k - 1], u)
  {
    assert cs[..k] == cs[..k - 1] + [cs[k - 1]];
    InSomeConcat(t, cs[..k - 1], [cs[k - 1]], u);
    assert [cs[k - 1]][0] == cs[k - 1];
    if InSome(t, [cs[k - 1]], u) {
      var j :| 0 <= j < 1 && t.Anc([cs[k - 1]][j], u);
    }
  }

  /**
    The `traverseTreeLastOrder` walk of `findRightMost`: the callback raises
    the accumulator to each node's trailing edge.
   */
  method RightMostWalk(t: Tree, o: Orient, rects: array<Rect>, v: nat, acc: real) returns (x: real)
    requires t.Valid() && rects.Length == t.Size() && v < t.Size()
    ensures x == TrailWalk(t, o, rects[..], v, acc)
    decreases t.Size() - v
  {
    var children := t.children[v];
    x := acc;
    for i := 0 to |children|
      invariant x == KidsWalk(t, o, rects[..], v, i, acc)
    {
      x := RightMostWalk(t, o, rects, children[i], x);
    }
    var right := Trail(rects[v], o);
    if right > x {
      x := right;
    }
  }

  /**
    `findRightMost` (`findBottom` in a left-right tree): the largest trailing
    edge in the subtree of `v`, or 0 when every edge is negative.
   */
  method FindRightMost(t: Tree, o: Orient, rects: array<Rect>, v: nat) returns (x: real)
    requires t.Valid() && rects.Length == t.Size() && v < t.Size()
    ensures x >= 0.0
    ensures forall u :: 0 <= u < t.Size() && t.Anc(v, u) ==> Trail(rects[u], o) <= x
    ensures x == 0.0 || exists u :: 0 <= u < t.Size() && t.Anc(v, u) && x == Trail(rects[u], o)
    ensures x == RightMost(t, o, rects[..], v)
  {
    x := RightMostWalk(t, o, rects, v, 0.0);
    TrailWalkBounds(t, o, rects[..], v, 0.0);
  }
}
