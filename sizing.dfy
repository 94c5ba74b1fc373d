/**
  Layout configuration and node sizing (`defaultNodeRectBuilder`).

  A node's rectangle is sized from the length of its label, the font cell
  size and the padding.  The text of the root runs along the tree's
  orientation and the text of every other node runs across it; the dimension
  along which the text runs grows with the label, which counts as at least
  five characters.
 */
module Sizing {
  import opened Geometry

  /**
    The immutable layout configuration: tree orientation, gap between
    siblings, gap between layers, node padding (`nodePadding[TOP]` and
    `nodePadding[RIGHT]`) and font cell size (`fontSize[FS_WIDTH]` and
    `fontSize[FS_HEIGHT]`).
   */
  datatype Config = Config(
    orient: Orient,
    interval: real,
    layerHeight: real,
    padTD: real,
    padRL: real,
    fontW: real,
    fontH: real)

  /** The defaults the chart starts with. */
  const DefaultConfig: Config := Config(Horizontal, 15.0, 100.0, 10.0, 15.0, 16.0, 18.0)

  /** Font cells are non-empty and padding is not negative. */
  predicate SaneSizes(cfg: Config)
  {
    cfg.fontW > 0.0 && cfg.fontH > 0.0 && cfg.padTD >= 0.0 && cfg.padRL >= 0.0
  }

  /** `rootNodeOrientTable[isRoot][treeOrient]`: the orientation of a node's text. */
  function NodeOrient(cfg: Config, isRoot: bool): (o: Orient)
    ensures o == cfg.orient <==> isRoot
  {
    if isRoot then cfg.orient else Flip(cfg.orient)
  }

  /** `Math.max(5, label.length)`: labels count as at least five characters. */
  function MinLength(text: string): (m: nat)
    ensures m >= 5 && m >= |text|
    ensures m == 5 || m == |text|
  {
    if |text| < 5 then 5 else |text|
  }

  /**
    `defaultNodeRectBuilder`: the unplaced rectangle `[0, 0, width, height]` of
    a node with the given text.
   */
  function NodeSize(cfg: Config, text: string, isRoot: bool): (r: Rect)
    ensures r.x == 0.0 && r.y == 0.0
  {
    var minLength := MinLength(text) as real;
    if NodeOrient(cfg, isRoot).Vertical? then
      Rect(0.0, 0.0, cfg.fontW + 2.0 * cfg.padRL, cfg.fontH * minLength + 2.0 * cfg.padTD)
    else
      Rect(0.0, 0.0, cfg.fontW * minLength + 2.0 * cfg.padRL, cfg.fontH + 2.0 * cfg.padTD)
  }

  /** Both dimensions of every node are positive. */
  lemma NodeSizePositive(cfg: Config, text: string, isRoot: bool)
    requires SaneSizes(cfg)
    ensures NodeSize(cfg, text, isRoot).w > 0.0 && NodeSize(cfg, text, isRoot).h > 0.0
  {
    var m := MinLength(text) as real;
    assert m >= 5.0;
    assert cfg.fontW * m > 0.0 && cfg.fontH * m > 0.0;
  }

  /**
    The text axis: along the node's text orientation the extent is the label
    length in font cells plus padding; across it, one font cell plus padding.
   */
  lemma NodeSizeTextAxis(cfg: Config, text: string, isRoot: bool)
    ensures var o := NodeOrient(cfg, isRoot);
            var r := NodeSize(cfg, text, isRoot);
            var m := MinLength(text) as real;
            && (o.Horizontal? ==> r.w == cfg.fontW * m + 2.0 * cfg.padRL && r.h == cfg.fontH + 2.0 * cfg.padTD)
            && (o.Vertical? ==> r.h == cfg.fontH * m + 2.0 * cfg.padTD && r.w == cfg.fontW + 2.0 * cfg.padRL)
  {
  }

  /**
    A longer label gives a node that is at least as long along its text and
    exactly as thick across it; labels of up to five characters all give
    the same size.
   */
  lemma NodeSizeMonotone(cfg: Config, a: string, b: string, isRoot: bool)
    requires SaneSizes(cfg) && |a| <= |b|
    ensures var o := NodeOrient(cfg, isRoot);
            && MainSize(NodeSize(cfg, a, isRoot), o) <= MainSize(NodeSize(cfg, b, isRoot), o)
            && CrossSize(NodeSize(cfg, a, isRoot), o) == CrossSize(NodeSize(cfg, b, isRoot), o)
    ensures |b| <= 5 ==> NodeSize(cfg, a, isRoot) == NodeSize(cfg, b, isRoot)
  {
    var o := NodeOrient(cfg, isRoot);
    var ra, rb := NodeSize(cfg, a, isRoot), NodeSize(cfg, b, isRoot);
    var ma, mb := MinLength(a) as real, MinLength(b) as real;
    NodeSizeTextAxis(cfg, a, isRoot);
    NodeSizeTextAxis(cfg, b, isRoot);
    if o.Horizontal? {
      ExtentMonotone(cfg.fontW, cfg.padRL, ma, mb, MainSize(ra, o), MainSize(rb, o));
    } else {
      ExtentMonotone(cfg.fontH, cfg.padTD, ma, mb, MainSize(ra, o), MainSize(rb, o));
    }
  }

  /** An extent of `c` per character plus padding grows with the character count. */
  lemma ExtentMonotone(c: real, pad: real, x: real, y: real, ex: real, ey: real)
    requires c > 0.0 && x <= y
    requires ex == c * x + 2.0 * pad && ey == c * y + 2.0 * pad
    ensures ex <= ey
  {
    assert c * y - c * x == c * (y - x);
  }

  /**
    The root and the other nodes trade axes: the label-dependent extent of the
    root lies along the sibling axis of the tree, that of every other node
    along the layer axis.
   */
  lemma NodeSizeRootSwap(cfg: Config, text: string)
    ensures var m := MinLength(text) as real;
            var root := NodeSize(cfg, text, true);
            var other := NodeSize(cfg, text, false);
            && MainSize(root, cfg.orient) - 2.0 * (if cfg.orient.Horizontal? then cfg.padRL else cfg.padTD)
               == m * (if cfg.orient.Horizontal? then cfg.fontW else cfg.fontH)
            && CrossSize(other, cfg.orient) - 2.0 * (if cfg.orient.Horizontal? then cfg.padTD else cfg.padRL)
               == m * (if cfg.orient.Horizontal? then cfg.fontH else cfg.fontW)
  {
  }
}
