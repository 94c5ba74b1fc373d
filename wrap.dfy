/**
  Tree wrapping: `traverseTreeFirstOrder` with `firstOrderCallback` and
  `wrappingNode` turn the caller's raw hierarchy into the arena of wrapped
  nodes.  The raw tree is walked breadth-first with a queue of raw nodes and a
  parallel queue of already-wrapped parents; the root is paired with the
  `parentOfRoot` sentinel, written -1 here.
 */
module Wrap {
  import opened Tree

  /** The four parallel sequences of the arena have one entry per wrapped node. */
  ghost predicate Shape(t: Tree)
  {
    |t.node| == |t.parentNode| && |t.depth| == |t.parentNode| && |t.children| == |t.parentNode|
  }

  /**
    `firstOrderCallback` / `wrappingNode`: wraps `raw` as the next node of the
    arena.  Under the sentinel parent (-1) the new node is a root of depth 0;
    otherwise its depth is one more than its parent's and it is appended to the
    parent's children.
   */
  function FirstOrderCallback(t: Tree, raw: RawNode, parent: int): (r: Tree)
    requires Shape(t) && -1 <= parent < t.Size()
    ensures Shape(r) && r.Size() == t.Size() + 1
    ensures r.node == t.node + [raw] && r.parentNode == t.parentNode + [parent]
    ensures r.depth[t.Size()] == (if parent < 0 then 0 else t.depth[parent] + 1)
    ensures r.depth[..t.Size()] == t.depth && r.children[t.Size()] == []
    ensures forall v :: 0 <= v < t.Size() ==>
              r.children[v] == if v == parent then t.children[v] + [t.Size()] else t.children[v]
  {
    var id := t.Size();
    var d: nat := if parent < 0 then 0 else t.depth[parent] + 1;
    var ch := if parent < 0 then t.children else t.children[parent := t.children[parent] + [id]];
    Tree(t.node + [raw], t.parentNode + [parent], t.depth + [d], ch + [[]])
  }

  // ---- the breadth-first invariant ---------------------------------------------
  //
  // Ghost bookkeeping: the children of wrapped node m receive the consecutive
  // indices off[m], off[m] + 1, ...; `next` is the first index not yet handed
  // out.  The queue holds, in order, the raw nodes that will become nodes
  // t.Size(), t.Size() + 1, ..., next - 1.

  /** Node `u` sits under its parent, at the index handed out for its raw node. */
  ghost predicate ParentOk(t: Tree, off: seq<nat>, u: nat)
    requires Shape(t) && |off| == t.Size() && 1 <= u < t.Size()
  {
    var p := t.parentNode[u];
    && 0 <= p < u
    && t.depth[u] == t.depth[p] + 1
    && off[p] <= u < off[p] + |t.node[p].kids|
    && t.node[u] == t.node[p].kids[u - off[p]]
  }

  /** The children wrapped so far for `v` are the first indices of its range. */
  ghost predicate ChildrenOk(t: Tree, off: seq<nat>, v: nat)
    requires Shape(t) && |off| == t.Size() && v < t.Size()
  {
    && |t.children[v]| <= |t.node[v].kids|
    && (|t.children[v]| < |t.node[v].kids| ==> off[v] + |t.children[v]| >= t.Size())
    && forall j :: 0 <= j < |t.children[v]| ==>
         t.children[v][j] == off[v] + j && off[v] + j < t.Size() && t.parentNode[off[v] + j] == v
  }

  ghost predicate Built(root: RawNode, t: Tree, off: seq<nat>, next: nat)
    requires Shape(t) && |off| == t.Size() && t.Size() > 0
  {
    var k := t.Size();
    && t.parentNode[0] == -1 && t.depth[0] == 0 && t.node[0] == root && off[0] == 1
    && off[k - 1] + |t.node[k - 1].kids| == next
    && (forall a, b :: 0 <= a < b < k ==> off[a] + |t.node[a].kids| <= off[b])
    && (forall m :: 0 <= m < k ==> m < off[m] && off[m] + |t.node[m].kids| <= next)
    && (forall u :: 1 <= u < k ==> ParentOk(t, off, u))
    && (forall v :: 0 <= v < k ==> ChildrenOk(t, off, v))
  }

  /** Queue entry `j` is the raw node that will become node `t.Size() + j`. */
  ghost predicate EntryOk(t: Tree, queue: seq<RawNode>, parentQueue: seq<int>, off: seq<nat>, j: nat)
    requires Shape(t) && |off| == t.Size() && |parentQueue| == |queue| && j < |queue|
  {
    var p := parentQueue[j];
    && 0 <= p < t.Size()
    && off[p] <= t.Size() + j < off[p] + |t.node[p].kids|
    && queue[j] == t.node[p].kids[t.Size() + j - off[p]]
  }

  ghost predicate Queued(t: Tree, queue: seq<RawNode>, parentQueue: seq<int>, off: seq<nat>)
    requires Shape(t) && |off| == t.Size() && |parentQueue| == |queue|
  {
    forall j :: 0 <= j < |queue| ==> EntryOk(t, queue, parentQueue, off, j)
  }

  ghost predicate Inv(root: RawNode, t: Tree, queue: seq<RawNode>, parentQueue: seq<int>,
                      off: seq<nat>, next: nat)
  {
    && Shape(t) && |parentQueue| == |queue| && |off| == t.Size()
    && t.Size() + |queue| == next
    && t.Size() + SizeSum(queue) == Size(root)
    && (t.Size() == 0 ==> queue == [root] && parentQueue == [-1] && next == 1)
    && (t.Size() > 0 ==> Built(root, t, off, next) && Queued(t, queue, parentQueue, off))
  }

  lemma SizeSumPop(queue: seq<RawNode>)
    requires |queue| > 0
    ensures SizeSum(queue[1..] + queue[0].kids) + 1 == SizeSum(queue)
  {
    SizeSumConcat(queue[1..], queue[0].kids);
  }

  /** Wrapping the root, paired with the sentinel. */
  lemma StepRoot(root: RawNode, t: Tree, queue: seq<RawNode>, parentQueue: seq<int>,
                 off: seq<nat>, next: nat)
    requires Inv(root, t, queue, parentQueue, off, next) && t.Size() == 0
    ensures var t' := FirstOrderCallback(t, queue[0], parentQueue[0]);
            Inv(root, t', queue[1..] + queue[0].kids,
                parentQueue[1..] + seq(|queue[0].kids|, _ => 0),
                off + [next], next + |queue[0].kids|)
  {
    var t' := FirstOrderCallback(t, queue[0], parentQueue[0]);
    var q' := queue[1..] + queue[0].kids;
    var pq' := parentQueue[1..] + seq(|queue[0].kids|, _ => 0);
    SizeSumPop(queue);
    assert q' == root.kids;
    assert ChildrenOk(t', off + [next], 0);
    assert Built(root, t', off + [next], next + |queue[0].kids|);
    forall j | 0 <= j < |q'| ensures EntryOk(t', q', pq', off + [next], j) {
      assert pq'[j] == 0;
    }
  }

  /** Only the parent's index range holds the index `k` of the node being wrapped. */
  lemma RangeOwner(root: RawNode, t: Tree, off: seq<nat>, next: nat, par: nat, v: nat)
    requires Shape(t) && |off| == t.Size() && t.Size() > 0 && Built(root, t, off, next)
    requires par < t.Size() && off[par] <= t.Size() < off[par] + |t.node[par].kids|
    requires v < t.Size() && v != par
    ensures !(off[v] <= t.Size() < off[v] + |t.node[v].kids|)
  {
    if v < par {
      assert off[v] + |t.node[v].kids| <= off[par];
    } else {
      assert off[par] + |t.node[par].kids| <= off[v];
    }
  }

  /** The children lists stay consistent when node `t.Size()` is wrapped under `par`. */
  lemma StepChildren(root: RawNode, t: Tree, queue: seq<RawNode>, parentQueue: seq<int>,
                     off: seq<nat>, next: nat)
    requires Inv(root, t, queue, parentQueue, off, next) && t.Size() > 0 && |queue| > 0
    ensures 0 <= parentQueue[0] < t.Size()
    ensures var t' := FirstOrderCallback(t, queue[0], parentQueue[0]);
            forall v :: 0 <= v < t'.Size() ==> ChildrenOk(t', off + [next], v)
  {
    var k := t.Size();
    var par := parentQueue[0];
    assert EntryOk(t, queue, parentQueue, off, 0);
    var t' := FirstOrderCallback(t, queue[0], par);
    var off' := off + [next];
    assert ChildrenOk(t, off, par);
    assert |t.children[par]| < |t.node[par].kids| && off[par] + |t.children[par]| == k by {
      if |t.children[par]| > 0 {
        var last := |t.children[par]| - 1;
        assert t.children[par][last] == off[par] + last < k;
      }
    }
    forall v | 0 <= v < k + 1
      ensures ChildrenOk(t', off', v)
    {
      if v == k {
      } else if v == par {
        assert ChildrenOk(t, off, v);
        assert t'.children[v] == t.children[v] + [k];
      } else {
        assert ChildrenOk(t, off, v);
        assert t'.children[v] == t.children[v];
        RangeOwner(root, t, off, next, par, v);
      }
    }
  }

  /** Wrapping a non-root node keeps the wrapped part consistent. */
  lemma StepChildBuilt(root: RawNode, t: Tree, queue: seq<RawNode>, parentQueue: seq<int>,
                       off: seq<nat>, next: nat)
    requires Inv(root, t, queue, parentQueue, off, next) && t.Size() > 0 && |queue| > 0
    ensures 0 <= parentQueue[0] < t.Size()
    ensures Built(root, FirstOrderCallback(t, queue[0], parentQueue[0]),
                  off + [next], next + |queue[0].kids|)
  {
    var k := t.Size();
    var par := parentQueue[0];
    assert EntryOk(t, queue, parentQueue, off, 0);
    var t' := FirstOrderCallback(t, queue[0], par);
    var off' := off + [next];
    StepChildren(root, t, queue, parentQueue, off, next);
    forall u | 1 <= u < k + 1
      ensures ParentOk(t', off', u)
    {
      if u < k {
        assert ParentOk(t, off, u);
      }
    }
  }

  /** Wrapping a non-root node keeps the queue aligned with the indices to come. */
  lemma StepChild(root: RawNode, t: Tree, queue: seq<RawNode>, parentQueue: seq<int>,
                  off: seq<nat>, next: nat)
    requires Inv(root, t, queue, parentQueue, off, next) && t.Size() > 0 && |queue| > 0
    ensures 0 <= parentQueue[0] < t.Size()
    ensures var t' := FirstOrderCallback(t, queue[0], parentQueue[0]);
            Inv(root, t', queue[1..] + queue[0].kids,
                parentQueue[1..] + seq(|queue[0].kids|, _ => t.Size()),
                off + [next], next + |queue[0].kids|)
  {
    var k := t.Size();
    var par := parentQueue[0];
    StepChildBuilt(root, t, queue, parentQueue, off, next);
    var t' := FirstOrderCallback(t, queue[0], par);
    var q' := queue[1..] + queue[0].kids;
    var pq' := parentQueue[1..] + seq(|queue[0].kids|, _ => k);
    var off' := off + [next];
    SizeSumPop(queue);
    forall j | 0 <= j < |q'|
      ensures EntryOk(t', q', pq', off', j)
    {
      if j < |queue| - 1 {
        assert EntryOk(t, queue, parentQueue, off, j + 1);
        assert q'[j] == queue[j + 1] && pq'[j] == parentQueue[j + 1];
      } else {
        assert pq'[j] == k && q'[j] == queue[0].kids[j - (|queue| - 1)];
      }
    }
  }

  /** When the queue is empty, every raw node has been wrapped under its parent. */
  lemma Finish(root: RawNode, t: Tree, off: seq<nat>, next: nat)
    requires Inv(root, t, [], [], off, next)
    ensures t.Valid() && t.Size() == Size(root) && t.node[0] == root
    ensures forall v :: 0 <= v < t.Size() ==> |t.children[v]| == |t.node[v].kids|
    ensures forall v, j :: 0 <= v < t.Size() && 0 <= j < |t.children[v]| ==>
              t.node[t.children[v][j]] == t.node[v].kids[j]
  {
    var k := t.Size();
    assert k > 0;
    forall v | 0 <= v < k
      ensures |t.children[v]| == |t.node[v].kids|
      ensures forall j :: 0 <= j < |t.children[v]| ==>
                t.children[v][j] == off[v] + j && v < t.children[v][j] < k
                && t.parentNode[t.children[v][j]] == v
    {
      assert ChildrenOk(t, off, v);
    }
    forall u | 1 <= u < k
      ensures 0 <= t.parentNode[u] < u && t.depth[u] == t.depth[t.parentNode[u]] + 1
      ensures u in t.children[t.parentNode[u]]
      ensures t.node[u] == t.node[t.parentNode[u]].kids[u - off[t.parentNode[u]]]
    {
      assert ParentOk(t, off, u);
      var p := t.parentNode[u];
      assert t.children[p][u - off[p]] == u;
    }
    forall v, j | 0 <= v < k && 0 <= j < |t.children[v]|
      ensures t.node[t.children[v][j]] == t.node[v].kids[j]
    {
      var c := t.children[v][j];
      assert ParentOk(t, off, c);
    }
  }

  /**
    One turn of the `traverseTreeFirstOrder` loop: takes the next raw node and
    its wrapped parent off the two queues, wraps it, and queues its raw
    children with the new node as their parent.
   */
  method WrapNext(ghost root: RawNode, t: Tree, queue: seq<RawNode>, parentQueue: seq<int>,
                  ghost off: seq<nat>, ghost next: nat)
    returns (t': Tree, queue': seq<RawNode>, parentQueue': seq<int>, ghost off': seq<nat>, ghost next': nat)
    requires Inv(root, t, queue, parentQueue, off, next) && |queue| > 0
    ensures Inv(root, t', queue', parentQueue', off', next')
    ensures t'.Size() == t.Size() + 1
  {
    if t.Size() == 0 {
      StepRoot(root, t, queue, parentQueue, off, next);
    } else {
      StepChild(root, t, queue, parentQueue, off, next);
    }
    var node := queue[0];
    queue' := queue[1..];
    var parent := parentQueue[0];
    parentQueue' := parentQueue[1..];
    var children := node.kids;
    t' := FirstOrderCallback(t, node, parent);
    var wrapNode := t'.Size() - 1;
    off', next' := off + [next], next + |children|;
    if IsEmpty(children) {
      assert queue' + children == queue';
      assert parentQueue' + seq(|children|, _ => wrapNode) == parentQueue';
      return;
    }
    queue', parentQueue' := PushChildren(queue', parentQueue', children, wrapNode);
  }

  /** The loop of `traverseTreeFirstOrder` that queues each raw child with its wrapped parent. */
  method PushChildren(queue: seq<RawNode>, parentQueue: seq<int>, children: seq<RawNode>, wrapNode: int)
    returns (queue': seq<RawNode>, parentQueue': seq<int>)
    ensures queue' == queue + children
    ensures parentQueue' == parentQueue + seq(|children|, _ => wrapNode)
  {
    queue', parentQueue' := queue, parentQueue;
    for i := 0 to |children|
      invariant queue' == queue + children[..i]
      invariant parentQueue' == parentQueue + seq(i, _ => wrapNode)
    {
      queue' := queue' + [children[i]];
      parentQueue' := parentQueue' + [wrapNode];
      assert children[..i + 1] == children[..i] + [children[i]];
    }
    assert children[..|children|] == children;
  }

  /**
    `traverseTreeFirstOrder(root, firstOrderCallback)`: the wrapped tree has
    exactly one node per raw node, the raw root as node 0, and each node's
    children wrap its raw children in their original order.
   */
  method TraverseTreeFirstOrder(root: RawNode) returns (t: Tree)
    ensures t.Valid() && t.Size() == Size(root) && t.node[0] == root
    ensures forall v :: 0 <= v < t.Size() ==> |t.children[v]| == |t.node[v].kids|
    ensures forall v, j :: 0 <= v < t.Size() && 0 <= j < |t.children[v]| ==>
              t.node[t.children[v][j]] == t.node[v].kids[j]
  {
    var queue := [root];
    var parentQueue := [-1];
    t := Tree([], [], [], []);
    ghost var off: seq<nat> := [];
    ghost var next: nat := 1;
    while |queue| > 0
      invariant Inv(root, t, queue, parentQueue, off, next)
      decreases Size(root) - t.Size()
    {
      t, queue, parentQueue, off, next := WrapNext(root, t, queue, parentQueue, off, next);
    }
    Finish(root, t, off, next);
  }
}
