/**
 * The level-of-detail quadtree (include/lod/lod_node.hpp, src/lod/lod_node.cpp).
 * A node has four child pointers in the field order bl, br, tl, tr; a node
 * whose children are all null is a leaf, and a null pointer is `Nil`.
 * `GetChunkSize` finds the size of the chunk under a sample point by
 * descending into the quadrant the point falls in.
 */
module LodNodes {
  import opened Ints

  datatype LodNode = Nil | Node(bl: LodNode, br: LodNode, tl: LodNode, tr: LodNode)
  {
    /** A node whose four children are null. */
    predicate IsLeaf()
    {
      Node? && bl.Nil? && br.Nil? && tl.Nil? && tr.Nil?
    }
  }

  /** A leaf: what `lod_node_alloc` returns, before any child is attached. */
  const Leaf: LodNode := Node(Nil, Nil, Nil, Nil)

  /** A sample point in tree coordinates, measured from the bottom left corner. */
  datatype Point = Point(x: real, y: real)

  /** An axis-aligned square: bottom left corner and side length. */
  datatype Square = Square(x: int, y: int, size: int)
  {
    /** The closed square contains the point. */
    predicate Contains(p: Point)
    {
      x as real <= p.x <= (x + size) as real && y as real <= p.y <= (y + size) as real
    }
  }

  /** Every node has either no children or all four. */
  ghost predicate ZeroOrFour(t: LodNode)
  {
    match t
    case Nil => true
    case Node(bl, br, tl, tr) =>
      && ((bl.Nil? && br.Nil? && tl.Nil? && tr.Nil?) || (bl.Node? && br.Node? && tl.Node? && tr.Node?))
      && ZeroOrFour(bl) && ZeroOrFour(br) && ZeroOrFour(tl) && ZeroOrFour(tr)
  }

  /** Every node of side `side` can be halved: its side is even, and so on down the tree. */
  ghost predicate Halvable(t: LodNode, side: int)
  {
    match t
    case Nil => true
    case Node(bl, br, tl, tr) =>
      && side >= 2 && side % 2 == 0
      && Halvable(bl, side / 2) && Halvable(br, side / 2) && Halvable(tl, side / 2) && Halvable(tr, side / 2)
  }

  /**
   * The leaves of the tree at (x, y) of side `side`, in the depth-first order
   * bl, br, tl, tr. A node counts as a leaf when its `tl` child is null,
   * which is the test the chunk traversal makes.
   */
  function Leaves(t: LodNode, x: int, y: int, side: int): (r: seq<Square>)
  {
    match t
    case Nil => []
    case Node(bl, br, tl, tr) =>
      if tl.Nil? then [Square(x, y, side)]
      else
        var h := side / 2;
        Leaves(bl, x, y, h) + Leaves(br, x + h, y, h) + Leaves(tl, x, y + h, h) + Leaves(tr, x + h, y + h, h)
  }

  /**
   * `lod_node::GetChunkSize` as written: a null node answers twice `tree_res`;
   * otherwise the point picks the child `2 * [y > tree_res] + [x > tree_res]`
   * (bl, br, tl, tr), each coordinate above `tree_res` is reduced by it, and
   * the search goes on in that child with half of `tree_res`. The comparisons
   * are strict, so a coordinate equal to `tree_res` stays left or bottom.
   */
  function GetChunkSize(node: LodNode, treeRes: SizeT, p: Point): (r: SizeT)
    ensures treeRes < SIZE_RANGE / 2 ==> r <= 2 * treeRes
    ensures node.Nil? ==> r == ToSize(2 * treeRes)
  {
    match node
    case Nil => ToSize(treeRes * 2)
    case Node(bl, br, tl, tr) =>
      var t := treeRes as real;
      var up, right := p.y > t, p.x > t;
      var sub := Point(if right then p.x - t else p.x, if up then p.y - t else p.y);
      var child := if up then (if right then tr else tl) else (if right then br else bl);
      GetChunkSize(child, treeRes / 2, sub)
  }

  /** On a leaf, with even `tree_res`, the lookup answers `tree_res` wherever the point is. */
  lemma GetChunkSizeOfLeaf(treeRes: SizeT, p: Point)
    requires treeRes % 2 == 0
    ensures GetChunkSize(Leaf, treeRes, p) == treeRes
  {
  }

  /**
   * The lookup with the comparison the return convention calls for. The
   * node passed with `side` has that side length (a null node answers twice
   * `side`, the side of its parent, which is then the leaf), so the point
   * is compared with the node's midpoint, `side / 2`.
   */
  function ChunkSizeAt(node: LodNode, side: SizeT, p: Point): (r: SizeT)
    ensures side < SIZE_RANGE / 2 ==> r <= 2 * side
  {
    match node
    case Nil => ToSize(side * 2)
    case Node(bl, br, tl, tr) =>
      var h := side / 2;
      var m := h as real;
      var up, right := p.y > m, p.x > m;
      var sub := Point(if right then p.x - m else p.x, if up then p.y - m else p.y);
      var child := if up then (if right then tr else tl) else (if right then br else bl);
      ChunkSizeAt(child, h, sub)
  }

  /** On a leaf of even side, the corrected lookup answers the side wherever the point is. */
  lemma ChunkSizeAtOfLeaf(side: SizeT, p: Point)
    requires side % 2 == 0
    ensures ChunkSizeAt(Leaf, side, p) == side
  {
  }

  /**
   * The corrected lookup finds the leaf under the point: on a tree whose
   * nodes have zero or four children and halve evenly, a point of the
   * tree's square gets the size of a leaf square that contains it.
   */
  lemma {:induction false} ChunkSizeAtFindsLeaf(t: LodNode, x: int, y: int, side: SizeT, p: Point)
    requires t.Node? && ZeroOrFour(t) && Halvable(t, side)
    requires Square(x, y, side).Contains(p)
    ensures exists sq :: sq in Leaves(t, x, y, side) && sq.Contains(p) && sq.size == ChunkSizeAt(t, side, Point(p.x - x as real, p.y - y as real))
  {
    var q := Point(p.x - x as real, p.y - y as real);
    var h := side / 2;
    if t.tl.Nil? {
      assert t.IsLeaf();
      assert ChunkSizeAt(t, side, q) == side;
      assert Leaves(t, x, y, side)[0] == Square(x, y, side);
      assert Square(x, y, side) in Leaves(t, x, y, side);
    } else {
      var m := h as real;
      var up, right := q.y > m, q.x > m;
      var cx, cy := if right then x + h else x, if up then y + h else y;
      var child := Quadrant(t, up, right);
      var sub := Point(p.x - cx as real, p.y - cy as real);
      assert sub == Point(if right then q.x - m else q.x, if up then q.y - m else q.y);
      assert ChunkSizeAt(t, side, q) == ChunkSizeAt(child, h, sub);
      assert Square(cx, cy, h).Contains(p);
      ChunkSizeAtFindsLeaf(child, cx, cy, h, p);
      var sq :| sq in Leaves(child, cx, cy, h) && sq.Contains(p) && sq.size == ChunkSizeAt(child, h, sub);
      QuadrantLeaf(t, x, y, side, up, right, cx, cy, sq);
    }
  }

  /** One step of the corrected lookup: it goes on in the quadrant of the node's midpoint the point lies in. */
  lemma ChunkSizeAtStep(t: LodNode, side: SizeT, q: Point, up: bool, right: bool, child: LodNode, sub: Point)
    requires t.Node? && child == Quadrant(t, up, right)
    requires up == (q.y > (side / 2) as real) && right == (q.x > (side / 2) as real)
    requires var m := (side / 2) as real; sub == Point(if right then q.x - m else q.x, if up then q.y - m else q.y)
    ensures ChunkSizeAt(t, side, q) == ChunkSizeAt(child, side / 2, sub)
  {
  }

  /** The child that the flags `up` and `right` select. */
  function Quadrant(t: LodNode, up: bool, right: bool): (c: LodNode)
    requires t.Node?
    ensures c < t
  {
    if up then (if right then t.tr else t.tl) else (if right then t.br else t.bl)
  }

  /** A leaf of a quadrant of an internal node is a leaf of the node. */
  lemma QuadrantLeaf(t: LodNode, x: int, y: int, side: int, up: bool, right: bool, cx: int, cy: int, sq: Square)
    requires t.Node? && t.tl.Node?
    requires cx == (if right then x + side / 2 else x) && cy == (if up then y + side / 2 else y)
    requires sq in Leaves(Quadrant(t, up, right), cx, cy, side / 2)
    ensures sq in Leaves(t, x, y, side)
  {
  }

  /** The tree of the seam test: four leaves, the bottom right one split again into four. */
  const SplitBottomRight: LodNode := Node(Leaf, Node(Leaf, Leaf, Leaf, Leaf), Leaf, Leaf)

  /**
   * Just below and right of the centre of a 128-wide tree whose bottom right
   * quadrant is split, the written lookup compares against 128 rather than
   * 64, descends into the bottom left leaf and answers 64; the only leaf
   * under the point has size 32, which the corrected lookup answers.
   */
  lemma GetChunkSizeMissesLeaf()
    ensures GetChunkSize(SplitBottomRight, 128, Point(71.5, 63.5)) == 64
    ensures ChunkSizeAt(SplitBottomRight, 128, Point(71.5, 63.5)) == 32
    ensures forall sq :: sq in Leaves(SplitBottomRight, 0, 0, 128) && sq.Contains(Point(71.5, 63.5)) ==> sq.size == 32
  {
    var p := Point(71.5, 63.5);
    assert ChunkSizeAt(Leaf, 32, Point(7.5, 31.5)) == 32;
    assert ChunkSizeAt(SplitBottomRight.br, 64, Point(7.5, 63.5)) == 32;
    assert GetChunkSize(Leaf, 64, p) == 64;
    var leaves := Leaves(SplitBottomRight, 0, 0, 128);
    assert leaves == [Square(0, 0, 64), Square(64, 0, 32), Square(96, 0, 32), Square(64, 32, 32),
                      Square(96, 32, 32), Square(0, 64, 64), Square(64, 64, 64)];
  }

  /** The number of nodes: `lod_node_free` deletes each of them once, children before parent. */
  function NodeCount(t: LodNode): (n: nat)
    ensures t.Node? ==> n >= 1
  {
    match t
    case Nil => 0
    case Node(bl, br, tl, tr) => NodeCount(bl) + NodeCount(br) + NodeCount(tl) + NodeCount(tr) + 1
  }

  /** A tree has at least as many nodes as the traversal finds leaves. */
  lemma {:induction false} LeavesWithinNodeCount(t: LodNode, x: int, y: int, side: int)
    ensures |Leaves(t, x, y, side)| <= NodeCount(t)
  {
    match t
    case Nil =>
    case Node(bl, br, tl, tr) =>
      if tl.Node? {
        var h := side / 2;
        LeavesWithinNodeCount(bl, x, y, h);
        LeavesWithinNodeCount(br, x + h, y, h);
        LeavesWithinNodeCount(tl, x, y + h, h);
        LeavesWithinNodeCount(tr, x + h, y + h, h);
      }
  }
}
