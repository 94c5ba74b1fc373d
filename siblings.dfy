/**
  `findAllPreSiblings`: the roots of the subtrees that `adjustNextSiblings`
  shifts towards the start of the sibling axis when the subtree of `v`
  reaches into its next sibling's space.

  They are `v` and its earlier siblings; when `v` is a first child the walk
  also climbs through the ancestors that are first children and adds the
  earlier siblings of the first ancestor that is not.  As written, the climb
  does not stop at the root: it reads the root's parent (`false`), takes its
  undefined `children` and calls `indexOf` on it, which throws.  `Climb` and
  `PreSiblings` are the evidently intended walk, which ends at the root;
  `ClimbAsWritten` and `PreSiblingsAsWritten` model the loop as written, with
  `None` for the thrown error.
 */
module Siblings {
  import opened Wrappers
  import opened Tree
  import opened Place
  import opened Move

  /**
    The climb from `a`: the earlier siblings of the nearest ancestor-or-self
    of `a` that is not a first child, or nothing when every node from `a` up
    to the root is a first child.
   */
  function Climb(t: Tree, a: nat): (r: seq<nat>)
    requires t.Valid() && a < t.Size()
    ensures forall i :: 0 <= i < |r| ==> 0 < r[i] < t.Size()
    decreases a
  {
    if a == 0 then []
    else if t.Pos(a) > 0 then t.children[t.Parent(a)][..t.Pos(a)]
    else Climb(t, t.Parent(a))
  }

  /**
    The intended `findAllPreSiblings(v)`: `v` and its earlier siblings, then,
    when `v` is a first child, the climb; nothing for the root.
   */
  function PreSiblings(t: Tree, v: nat): (r: seq<nat>)
    requires t.Valid() && v < t.Size()
    ensures forall i :: 0 <= i < |r| ==> 0 < r[i] < t.Size()
  {
    if v == 0 then []
    else
      var index := t.Pos(v);
      t.children[t.Parent(v)][..index + 1] + (if index == 0 then Climb(t, v) else [])
  }

  /**
    The climb as the loop is written.  A wrapped node never carries the
    `parentOfRoot` flag, so the only exit besides a node with earlier
    siblings is the error thrown once the walk has reached the root.
   */
  function ClimbAsWritten(t: Tree, node: nat): (r: Option<seq<nat>>)
    requires t.Valid() && node < t.Size()
    decreases node
  {
    if t.parentNode[node] < 0 then None
    else
      var children := t.children[t.Parent(node)];
      var index := IndexOf(children, node);
      if index > 0 then Some(children[..index])
      else ClimbAsWritten(t, t.Parent(node))
  }

  /** `findAllPreSiblings` as written; `None` where it throws. */
  function PreSiblingsAsWritten(t: Tree, v: nat): (r: Option<seq<nat>>)
    requires t.Valid() && v < t.Size()
  {
    if t.parentNode[v] < 0 then Some([])
    else
      var children := t.children[t.Parent(v)];
      var index := IndexOf(children, v);
      var siblings := children[..index + 1];
      if index == 0 then
        match ClimbAsWritten(t, v)
        case None => None
        case Some(more) => Some(siblings + more)
      else Some(siblings)
  }

  /** The written climb fails exactly where the intended one comes back empty, and agrees otherwise. */
  lemma {:induction false} ClimbAsWrittenFails(t: Tree, a: nat)
    requires t.Valid() && a < t.Size()
    ensures ClimbAsWritten(t, a) == if Climb(t, a) == [] then None else Some(Climb(t, a))
    decreases a
  {
    if a > 0 && t.Pos(a) == 0 {
      ClimbAsWrittenFails(t, t.Parent(a));
    }
  }

  /**
    The climb comes back empty exactly when every node from `a` up to the
    root is the first child of its parent.
   */
  lemma {:induction false} ClimbEmpty(t: Tree, a: nat)
    requires t.Valid() && a < t.Size()
    ensures Climb(t, a) == [] <==> forall b :: 0 < b < t.Size() && t.Anc(b, a) ==> t.Pos(b) == 0
    decreases a
  {
    if a > 0 {
      ClimbEmpty(t, t.Parent(a));
      if t.Pos(a) == 0 {
        forall b | 0 < b < t.Size() && t.Anc(b, a) && b != a
          ensures t.Anc(b, t.Parent(a))
        {
        }
      } else {
        assert t.Anc(a, a);
      }
    }
  }

  /**
    `findAllPreSiblings` as written throws exactly when `v` and all of its
    ancestors below the root are first children; otherwise it returns the
    intended list.
   */
  lemma PreSiblingsAsWrittenFails(t: Tree, v: nat)
    requires t.Valid() && v < t.Size()
    ensures PreSiblingsAsWritten(t, v).None? <==>
              v > 0 && forall b :: 0 < b < t.Size() && t.Anc(b, v) ==> t.Pos(b) == 0
    ensures PreSiblingsAsWritten(t, v).Some? ==> PreSiblingsAsWritten(t, v).value == PreSiblings(t, v)
  {
    if v > 0 {
      ClimbAsWrittenFails(t, v);
      ClimbEmpty(t, v);
      assert t.Anc(v, v);
    }
  }

  /**
    The intended `findAllPreSiblings`: the loop of the original, with the
    walk ending at the root instead of reading the root's missing parent.
   */
  method FindAllPreSiblings(t: Tree, v: nat) returns (siblings: seq<nat>)
    requires t.Valid() && v < t.Size()
    ensures siblings == PreSiblings(t, v)
  {
    if t.parentNode[v] < 0 {
      return [];
    }
    var parentNode := t.Parent(v);
    var children := t.children[parentNode];
    siblings := [];
    var index := IndexOf(children, v);
    siblings := PushAll(siblings, children, index + 1);
    if index == 0 {
      siblings := ClimbFrom(t, v, siblings);
    }
  }

  /**
    The walk up from a first child `v`: the earlier siblings of the first
    node on the way up that has some, appended to `siblings`.
   */
  method ClimbFrom(t: Tree, v: nat, siblings: seq<nat>) returns (r: seq<nat>)
    requires t.Valid() && 0 < v < t.Size()
    ensures r == siblings + Climb(t, v)
  {
    r := siblings;
    var node := v;
    var parent := t.Parent(v);
    var children := t.children[parent];
    while true
      invariant 0 < node < t.Size() && parent == t.Parent(node) && children == t.children[parent]
      invariant r + Climb(t, node) == siblings + Climb(t, v)
      decreases node
    {
      var index := IndexOf(children, node);
      if index > 0 {
        r := PushAll(r, children, index);
        return;
      }
      if t.parentNode[parent] < 0 {
        return;
      }
      node := parent;
      parent := t.Parent(node);
      children := t.children[parent];
    }
  }

  /** `for (i = 0; i < n; i++) siblings.push(children[i])`. */
  method PushAll(siblings: seq<nat>, children: seq<nat>, n: nat) returns (r: seq<nat>)
    requires n <= |children|
    ensures r == siblings + children[..n]
  {
    r := siblings;
    for i := 0 to n
      invariant r == siblings + children[..i]
    {
      assert children[..i + 1] == children[..i] + [children[i]];
      r := r + [children[i]];
    }
  }

  // ---- the shape of the list -----------------------------------------------------

  /** No listed node lies in the subtree of another, so their subtrees are disjoint. */
  predicate Independent(t: Tree, s: seq<nat>)
    requires t.Valid() && forall i :: 0 <= i < |s| ==> s[i] < t.Size()
  {
    forall i, j :: 0 <= i < |s| && 0 <= j < |s| && i != j ==> !t.Anc(s[i], s[j])
  }

  /** A node in the subtree of one child is unrelated to every other child of the same parent. */
  lemma ApartFromSibling(t: Tree, q: nat, i: nat, j: nat, x: nat)
    requires t.Valid() && q < t.Size() && x < t.Size()
    requires i < |t.children[q]| && j < |t.children[q]| && i != j
    requires t.Anc(t.children[q][i], x)
    ensures t.children[q][j] < t.Size()
    ensures !t.Anc(t.children[q][j], x) && !t.Anc(x, t.children[q][j])
  {
    ChildAnc(t, q, j);
    SiblingsDisjoint(t, q, i, j, x);
    if t.Anc(x, t.children[q][j]) {
      AncTrans(t, t.children[q][i], x, t.children[q][j]);
    }
  }

  lemma PrefixIndependent(t: Tree, q: nat, k: nat)
    requires t.Valid() && q < t.Size() && k <= |t.children[q]|
    ensures forall i :: 0 <= i < k ==> t.children[q][..k][i] < t.Size()
    ensures Independent(t, t.children[q][..k])
  {
    var s := t.children[q][..k];
    forall i, j | 0 <= i < |s| && 0 <= j < |s| && i != j
      ensures !t.Anc(s[i], s[j])
    {
      SiblingsUnrelated(t, q, i, j);
    }
  }

  /**
    Where the climb stops: an ancestor-or-self `top` of `a`, the root when
    the climb is empty, and otherwise a node with earlier siblings, which
    are the climb.  It is the nearest such node: every non-root node on the
    path from `a` up to `top`, `top` excluded, is a first child.
   */
  lemma {:induction false} ClimbShape(t: Tree, a: nat) returns (top: nat)
    requires t.Valid() && a < t.Size()
    ensures top < t.Size() && t.Anc(top, a)
    ensures top == 0 ==> Climb(t, a) == []
    ensures top > 0 ==> t.Pos(top) > 0 && Climb(t, a) == t.children[t.Parent(top)][..t.Pos(top)]
    ensures forall b :: 0 < b < t.Size() && t.Anc(b, a) && t.Anc(top, b) && b != top ==> t.Pos(b) == 0
    decreases a
  {
    if a == 0 {
      top := 0;
    } else if t.Pos(a) > 0 {
      top := a;
      forall b | 0 < b < t.Size() && t.Anc(b, a) && t.Anc(top, b)
        ensures b == top
      {
        AncBound(t, b, a);
        AncBound(t, a, b);
      }
    } else {
      top := ClimbShape(t, t.Parent(a));
      forall b | 0 < b < t.Size() && t.Anc(b, a) && t.Anc(top, b) && b != top
        ensures t.Pos(b) == 0
      {
        if b != a {
          assert t.Anc(b, t.Parent(a));
        }
      }
    }
  }

  /**
    The list of a non-root `v` is `v` and its earlier siblings; or, for a
    first child, `v` followed by the earlier siblings of a proper ancestor
    `top`, the nearest one that is not a first child.
   */
  lemma PreSiblingsShape(t: Tree, v: nat) returns (top: nat)
    requires t.Valid() && 0 < v < t.Size()
    ensures top < t.Size() && t.Anc(top, v)
    ensures forall b :: 0 < b < t.Size() && t.Anc(b, v) && t.Anc(top, b) && b != top ==> t.Pos(b) == 0
    ensures || PreSiblings(t, v) == t.children[t.Parent(v)][..t.Pos(v) + 1]
            || (&& 0 < top && top != v && t.Pos(top) > 0
                && PreSiblings(t, v) == [v] + t.children[t.Parent(top)][..t.Pos(top)])
  {
    top := ClimbShape(t, v);
    if t.Pos(v) == 0 && top > 0 {
      assert t.children[t.Parent(v)][..1] == [v];
    }
  }

  /** The listed subtrees are pairwise disjoint: moving them one at a time moves each node at most once. */
  lemma PreSiblingsIndependent(t: Tree, v: nat)
    requires t.Valid() && v < t.Size()
    ensures Independent(t, PreSiblings(t, v))
  {
    if v > 0 {
      var s, p, k := PreSiblings(t, v), t.Parent(v), t.Pos(v);
      var top := PreSiblingsShape(t, v);
      if s == t.children[p][..k + 1] {
        PrefixIndependent(t, p, k + 1);
      } else {
        var q := t.Parent(top);
        var c := t.children[q][..t.Pos(top)];
        PrefixIndependent(t, q, t.Pos(top));
        forall j | 0 <= j < |c|
          ensures !t.Anc(v, c[j]) && !t.Anc(c[j], v)
        {
          ApartFromSibling(t, q, t.Pos(top), j, v);
        }
        ConsIndependent(t, v, c);
      }
    }
  }

  /** Adding a node unrelated to every listed one keeps the list independent. */
  lemma ConsIndependent(t: Tree, x: nat, c: seq<nat>)
    requires t.Valid() && x < t.Size() && forall j :: 0 <= j < |c| ==> c[j] < t.Size()
    requires Independent(t, c)
    requires forall j :: 0 <= j < |c| ==> !t.Anc(x, c[j]) && !t.Anc(c[j], x)
    ensures Independent(t, [x] + c)
  {
    var s := [x] + c;
    forall i, j | 0 <= i < |s| && 0 <= j < |s| && i != j
      ensures !t.Anc(s[i], s[j])
    {
      if i > 0 && j > 0 {
        assert s[i] == c[i - 1] && s[j] == c[j - 1];
      }
    }
  }

  /** `v` itself is listed, so its whole subtree moves. */
  lemma PreSiblingsCover(t: Tree, v: nat, u: nat)
    requires t.Valid() && 0 < v < t.Size() && u < t.Size() && t.Anc(v, u)
    ensures InSome(t, PreSiblings(t, v), u)
  {
    assert PreSiblings(t, v)[t.Pos(v)] == v;
  }

  /** The next sibling, the node `v` is being separated from, is never moved. */
  lemma PreSiblingsMissNext(t: Tree, v: nat, next: nat)
    requires t.Valid() && v < t.Size() && NextSibling(t, v) == Some(next)
    ensures !InSome(t, PreSiblings(t, v), next)
  {
    var p, k := t.Parent(v), t.Pos(v);
    var climb := if k == 0 then Climb(t, v) else [];
    assert PreSiblings(t, v) == t.children[p][..k + 1] + climb;
    EarlierMissNext(t, p, k);
    if k == 0 {
      ClimbMissNext(t, v, next);
    }
    InSomeConcat(t, t.children[p][..k + 1], climb, next);
  }

  /** `v`, its earlier siblings and their subtrees do not contain the sibling just after `v`. */
  lemma EarlierMissNext(t: Tree, p: nat, k: nat)
    requires t.Valid() && p < t.Size() && k + 1 < |t.children[p]|
    ensures t.children[p][k + 1] < t.Size() && !InSome(t, t.children[p][..k + 1], t.children[p][k + 1])
  {
    var s := t.children[p][..k + 1];
    forall j | 0 <= j < |s|
      ensures !t.Anc(s[j], t.children[p][k + 1])
    {
      SiblingsUnrelated(t, p, j, k + 1);
    }
  }

  /** The climb from a first child does not contain that child's next sibling. */
  lemma ClimbMissNext(t: Tree, v: nat, next: nat)
    requires t.Valid() && v < t.Size() && NextSibling(t, v) == Some(next) && t.Pos(v) == 0
    ensures !InSome(t, Climb(t, v), next)
  {
    var top := ClimbShape(t, v);
    if top > 0 {
      ClimbMissesNext(t, v, next, top);
    }
  }

  /** The climb's nodes are earlier siblings of an ancestor of `next`, so they are unrelated to it. */
  lemma ClimbMissesNext(t: Tree, v: nat, next: nat, top: nat)
    requires t.Valid() && 0 < v < t.Size() && 0 < next < t.Size() && t.Parent(next) == t.Parent(v)
    requires 0 < top < t.Size() && t.Anc(top, v) && top != v && t.Pos(top) > 0
    ensures !InSome(t, t.children[t.Parent(top)][..t.Pos(top)], next)
  {
    var q, i := t.Parent(top), t.Pos(top);
    var s := t.children[q][..i];
    assert t.Anc(top, t.Parent(v));
    assert t.Anc(top, next);
    forall j | 0 <= j < |s|
      ensures !t.Anc(s[j], next)
    {
      ApartFromSibling(t, q, i, j, next);
    }
  }

  /**
    Every listed node hangs below a proper ancestor of `v`: a parent whose
    children are only partly moved is always above `v`.
   */
  lemma PreSiblingsParents(t: Tree, v: nat)
    requires t.Valid() && v < t.Size()
    ensures forall j :: 0 <= j < |PreSiblings(t, v)| ==> Below(t, t.Parent(PreSiblings(t, v)[j]), v)
  {
    var s := PreSiblings(t, v);
    if v > 0 {
      var p, k := t.Parent(v), t.Pos(v);
      forall j | 0 <= j < |s|
        ensures Below(t, t.Parent(s[j]), v)
      {
        if j <= k {
          assert s[j] == t.children[p][j];
        } else {
          var top := ClimbShape(t, v);
          var q := t.Parent(top);
          assert s[j] == t.children[q][j - 1];
          assert t.Anc(q, top);
          AncTrans(t, q, top, v);
          AncBound(t, top, v);
        }
      }
    }
  }

  // ---- what a pass may move --------------------------------------------------------

  /**
    The roots of the subtrees that hang before the path from the root to
    `v`: the earlier siblings of `v` and of each of its ancestors.
   */
  function LeftRoots(t: Tree, v: nat): (r: seq<nat>)
    requires t.Valid() && v < t.Size()
    ensures forall i :: 0 <= i < |r| ==> 0 < r[i] < t.Size()
    decreases v
  {
    if v == 0 then [] else t.children[t.Parent(v)][..t.Pos(v)] + LeftRoots(t, t.Parent(v))
  }

  /** The list of child `i` of `v` is the earlier children of `v` followed by the list of `v`. */
  lemma ChildLeftRoots(t: Tree, v: nat, i: nat)
    requires t.Valid() && v < t.Size() && i < |t.children[v]|
    ensures t.children[v][i] < t.Size()
    ensures LeftRoots(t, t.children[v][i]) == t.children[v][..i] + LeftRoots(t, v)
  {
    var c := t.children[v][i];
    assert t.Parent(c) == v;
    PosUnique(t, c, i);
  }

  /** No subtree hanging before the path to `a` contains `a` or a descendant of it. */
  lemma {:induction false} LeftRootsMiss(t: Tree, a: nat, x: nat)
    requires t.Valid() && a < t.Size() && x < t.Size() && t.Anc(a, x)
    ensures !InSome(t, LeftRoots(t, a), x)
    decreases a
  {
    if a > 0 {
      var p, k := t.Parent(a), t.Pos(a);
      var s := t.children[p][..k];
      forall j | 0 <= j < |s|
        ensures !t.Anc(s[j], x)
      {
        ApartFromSibling(t, p, k, j, x);
      }
      assert t.Anc(p, a);
      AncTrans(t, p, a, x);
      LeftRootsMiss(t, p, x);
      InSomeConcat(t, s, LeftRoots(t, p), x);
    }
  }

  /** The climb from `a` lists subtrees hanging before the path to `a`. */
  lemma {:induction false} ClimbLeft(t: Tree, a: nat, u: nat)
    requires t.Valid() && a < t.Size() && u < t.Size() && InSome(t, Climb(t, a), u)
    ensures InSome(t, LeftRoots(t, a), u)
    decreases a
  {
    var p := t.Parent(a);
    if t.Pos(a) > 0 {
      InSomeConcat(t, t.children[p][..t.Pos(a)], LeftRoots(t, p), u);
    } else {
      assert LeftRoots(t, a) == LeftRoots(t, p);
      ClimbLeft(t, p, u);
    }
  }

  /**
    Every subtree `findAllPreSiblings(v)` lists is the subtree of `v` or one
    hanging before the path to `v`.
   */
  lemma PreSiblingsLeft(t: Tree, v: nat, u: nat)
    requires t.Valid() && v < t.Size() && u < t.Size() && InSome(t, PreSiblings(t, v), u)
    ensures t.Anc(v, u) || InSome(t, LeftRoots(t, v), u)
  {
    var p, k := t.Parent(v), t.Pos(v);
    var before, climb := t.children[p][..k], if k == 0 then Climb(t, v) else [];
    PreSiblingsSplit(t, v);
    if InSome(t, climb, u) {
      ClimbLeft(t, v, u);
    }
    PartsLeft(t, PreSiblings(t, v), before, climb, LeftRoots(t, v), LeftRoots(t, p), v, u);
  }

  /** The list-level step of `PreSiblingsLeft`: membership in each part of `before + [v] + climb`. */
  lemma PartsLeft(t: Tree, s: seq<nat>, before: seq<nat>, climb: seq<nat>, left: seq<nat>, rest: seq<nat>,
                  v: nat, u: nat)
    requires t.Valid() && v < t.Size() && u < t.Size()
    requires s == before + [v] + climb && left == before + rest
    requires InSome(t, s, u) && (InSome(t, climb, u) ==> InSome(t, left, u))
    ensures t.Anc(v, u) || InSome(t, left, u)
  {
    InSomeConcat(t, before + [v], climb, u);
    InSomeConcat(t, before, [v], u);
    InSomeConcat(t, before, rest, u);
    if InSome(t, [v], u) {
      assert [v][0] == v;
    }
  }

  /** `findAllPreSiblings(v)` is the earlier siblings, then `v`, then for a first child the climb. */
  lemma PreSiblingsSplit(t: Tree, v: nat)
    requires t.Valid() && 0 < v < t.Size()
    ensures var p, k := t.Parent(v), t.Pos(v);
            PreSiblings(t, v) == t.children[p][..k] + [v] + (if k == 0 then Climb(t, v) else [])
  {
    var p, k := t.Parent(v), t.Pos(v);
    assert t.children[p][..k + 1] == t.children[p][..k] + [v];
  }

  /** The next sibling of `v` lies neither in the subtree of `v` nor in one hanging before its path. */
  lemma NextOutsideLeft(t: Tree, v: nat, next: nat)
    requires t.Valid() && v < t.Size() && NextSibling(t, v) == Some(next)
    ensures !t.Anc(v, next) && !InSome(t, LeftRoots(t, v), next)
  {
    var p, k := t.Parent(v), t.Pos(v);
    var before := t.children[p][..k];
    SiblingsUnrelated(t, p, k, k + 1);
    forall j | 0 <= j < |before|
      ensures !t.Anc(before[j], next)
    {
      SiblingsUnrelated(t, p, j, k + 1);
    }
    assert t.Anc(p, next);
    LeftRootsMiss(t, p, next);
    InSomeConcat(t, before, LeftRoots(t, p), next);
  }

  /** Independent roots have disjoint subtrees: the first `i` miss the subtree of root `i`. */
  lemma IndependentDisjoint(t: Tree, s: seq<nat>, i: nat)
    requires t.Valid() && (forall k :: 0 <= k < |s| ==> s[k] < t.Size()) && Independent(t, s) && i < |s|
    ensures forall u :: 0 <= u < t.Size() && InSome(t, s[..i], u) ==> !InSome(t, [s[i]], u)
  {
    forall u | 0 <= u < t.Size() && InSome(t, s[..i], u)
      ensures !InSome(t, [s[i]], u)
    {
      var j :| 0 <= j < i && t.Anc(s[..i][j], u);
      assert s[..i][j] == s[j];
      if t.Anc([s[i]][0], u) {
        AncLinear(t, s[j], s[i], u);
      }
    }
  }
}
