/**
 * The quadtree builder (include/lod/LodTreeGenerator.hpp). Starting from
 * the whole terrain, a node is split into four when it is larger than a
 * chunk and the viewer is within its distance threshold; each level down
 * halves the node size and divides the threshold by four.
 */
module LodTreeGenerators {
  import opened Ints
  import opened LodNodes

  /** `CASCADE_MUL_FACTOR`: the threshold grows by this factor per level up. */
  const CASCADE_MUL_FACTOR: real := 4.0

  /** 1, 2, 4, 8, ...: what the constructor's `n & (n - 1)` test accepts for a positive n. */
  ghost predicate PowerOfTwo(n: int)
    decreases n
  {
    n == 1 || (n > 1 && n % 2 == 0 && PowerOfTwo(n / 2))
  }

  /** A power of two larger than another is even, and its half is still at least the other. */
  lemma {:induction false} PowerOfTwoHalf(a: int, b: int)
    requires PowerOfTwo(a) && PowerOfTwo(b) && a > b
    ensures a % 2 == 0 && PowerOfTwo(a / 2) && a / 2 >= b
    decreases a
  {
    if b > 1 {
      PowerOfTwoHalf(a / 2, b / 2);
    }
  }

  /** The viewer position; the tree lies in the x-z plane. */
  datatype Vec3 = Vec3(x: real, y: real, z: real)

  function Clamp(v: real, lo: real, hi: real): (r: real)
    requires lo <= hi
    ensures lo <= r <= hi
    ensures lo <= v <= hi ==> r == v
  {
    if v < lo then lo else if v > hi then hi else v
  }

  function Sq(r: real): real
  {
    r * r
  }

  /** A square is never negative, and is zero only at zero. */
  lemma SqSign(r: real)
    ensures Sq(r) >= 0.0
    ensures Sq(r) == 0.0 <==> r == 0.0
  {
    if r != 0.0 {
      calc {
        Sq(r);
        r * r;
      >
        0.0;
      }
    }
  }

  /**
   * The squared distance from the viewer to the node's square, as written:
   * outside the square, the length of the offset to the clamped point (whose
   * height is the viewer's own, so height drops out); inside, 0.
   */
  function DistanceSq(x: int, y: int, nodeSize: int, pos: Vec3): (d: real)
    requires nodeSize >= 0
    ensures d >= 0.0
  {
    var xf, yf := x as real, y as real;
    if pos.x < xf || pos.x > xf + nodeSize as real || pos.z < yf || pos.z > yf + nodeSize as real then
      var closest := Vec3(Clamp(pos.x, xf, xf + nodeSize as real), pos.y, Clamp(pos.z, yf, yf + nodeSize as real));
      Sq(closest.x - pos.x) + Sq(closest.y - pos.y) + Sq(closest.z - pos.z)
    else
      0.0
  }

  /** The distance is zero exactly when the viewer stands over the square, whatever its height. */
  lemma DistanceZeroIffOver(x: int, y: int, nodeSize: int, pos: Vec3)
    requires nodeSize >= 0
    ensures DistanceSq(x, y, nodeSize, pos) >= 0.0
    ensures DistanceSq(x, y, nodeSize, pos) == 0.0 <==> Square(x, y, nodeSize).Contains(Point(pos.x, pos.z))
  {
    var xf, yf := x as real, y as real;
    var cx := Clamp(pos.x, xf, xf + nodeSize as real);
    var cz := Clamp(pos.z, yf, yf + nodeSize as real);
    SqSign(cx - pos.x);
    SqSign(cz - pos.z);
    if !Square(x, y, nodeSize).Contains(Point(pos.x, pos.z)) {
      assert cx != pos.x || cz != pos.z;
    }
  }

  /** The product of two non-negative reals is non-negative. */
  lemma NonNegativeProduct(a: real, b: real)
    requires a >= 0.0 && b >= 0.0
    ensures a * b >= 0.0
  {
  }

  /** A viewer over a square is within any non-negative threshold of it. */
  lemma OverIsWithin(x: int, y: int, nodeSize: int, threshold: real, pos: Vec3)
    requires nodeSize >= 0 && threshold >= 0.0 && Square(x, y, nodeSize).Contains(Point(pos.x, pos.z))
    ensures WithinThreshold(DistanceSq(x, y, nodeSize, pos), threshold)
  {
    DistanceZeroIffOver(x, y, nodeSize, pos);
    NonNegativeProduct(threshold, threshold);
  }

  /**
   * The quadrant a point of a square lies in, by the midpoint comparisons of
   * the corrected lookup: its corner (cx, cy), a half-size square that
   * contains the point, with the point's offset from it.
   */
  lemma QuadrantOf(x: int, y: int, side: int, p: Point, up: bool, right: bool) returns (cx: int, cy: int)
    requires side >= 0 && side % 2 == 0 && Square(x, y, side).Contains(p)
    requires up == (p.y - y as real > (side / 2) as real) && right == (p.x - x as real > (side / 2) as real)
    ensures cx == (if right then x + side / 2 else x) && cy == (if up then y + side / 2 else y)
    ensures Square(cx, cy, side / 2).Contains(p)
    ensures var m := (side / 2) as real; var q := Point(p.x - x as real, p.y - y as real);
      Point(p.x - cx as real, p.y - cy as real) == Point(if right then q.x - m else q.x, if up then q.y - m else q.y)
  {
    var h := side / 2;
    cx, cy := if right then x + h else x, if up then y + h else y;
  }

  /** The viewer's height does not enter the distance. */
  lemma DistanceIgnoresHeight(x: int, y: int, nodeSize: int, pos: Vec3, height: real)
    requires nodeSize >= 0
    ensures DistanceSq(x, y, nodeSize, pos) == DistanceSq(x, y, nodeSize, pos.(y := height))
  {
  }

  /** `!(dist > threshold)` with `dist` the square root of `distSq`. */
  predicate WithinThreshold(distSq: real, threshold: real)
  {
    threshold >= 0.0 && distSq <= threshold * threshold
  }

  /** cf * (n / (2 * chunkRes))^2: the cascade factor scaled by the square of the node's size in units of two chunks. */
  function Threshold(cf: real, chunkRes: int, n: int): (t: real)
    requires chunkRes >= 1
    ensures n == 2 * chunkRes ==> t == cf
  {
    cf * Sq(n as real / (2 * chunkRes) as real)
  }

  /** A non-negative cascade factor gives non-negative thresholds. */
  lemma ThresholdNonNegative(cf: real, chunkRes: int, n: int)
    requires chunkRes >= 1 && cf >= 0.0
    ensures Threshold(cf, chunkRes, n) >= 0.0
  {
    var r := n as real / (2 * chunkRes) as real;
    SqSign(r);
    NonNegativeProduct(cf, Sq(r));
  }

  /** The loop step of `CreateLodTree`: four times the value at half the side keeps value times side squared. */
  lemma ScaleStep(v: real, s: int, k: real)
    requires s % 2 == 0 && v * Sq(s as real) == k
    ensures v * CASCADE_MUL_FACTOR * Sq((s / 2) as real) == k
  {
    assert Sq((s / 2) as real) * 4.0 == Sq(s as real);
  }

  /** When the loop stops at the chunk size, the value it reached is the threshold for the terrain's size. */
  lemma ThresholdFromScale(v: real, cf: real, chunkRes: int, size: int)
    requires chunkRes >= 1 && v * Sq(chunkRes as real) == cf / 4.0 * Sq(size as real)
    ensures v == Threshold(cf, chunkRes, size)
  {
    var c := chunkRes as real;
    assert Sq(size as real / (2.0 * c)) * 4.0 * Sq(c) == Sq(size as real);
  }

  /** Halving an even size divides its threshold by four. */
  lemma ThresholdQuarters(cf: real, chunkRes: int, n: int)
    requires chunkRes >= 1 && n % 2 == 0
    ensures Threshold(cf, chunkRes, n) / CASCADE_MUL_FACTOR == Threshold(cf, chunkRes, n / 2)
  {
    var c := (2 * chunkRes) as real;
    var r := n as real / c;
    assert (n / 2) as real / c == r / 2.0;
    assert Sq(r / 2.0) == Sq(r) / 4.0;
  }

  /** The sizes of the generator tests are powers of two. */
  lemma TestSizesArePowersOfTwo()
    ensures PowerOfTwo(16) && PowerOfTwo(256)
  {
    assert PowerOfTwo(1) && PowerOfTwo(2) && PowerOfTwo(4) && PowerOfTwo(8);
    assert PowerOfTwo(16) && PowerOfTwo(32) && PowerOfTwo(64) && PowerOfTwo(128);
  }

  /**
   * The `VerifyMinChunkSizeAtLocalPoint` test: a generator of sizes 256 and
   * 16 with cascade factor 32 builds, for a viewer at (40, 40, 2.5), a tree
   * whose written lookup at (40, 40) answers 16, the chunk size; the chunk
   * under the viewer's own ground point (40, 2.5) has that size as well.
   */
  method VerifyMinChunkSizeAtLocalPoint() returns (sizeAtQuery: SizeT, sizeUnderViewer: SizeT)
    ensures sizeAtQuery == 16 && sizeUnderViewer == 16
  {
    TestSizesArePowersOfTwo();
    var generator := new LodTreeGenerator(256, 16);
    generator.cascadeFactor := 32.0;
    var pos := Vec3(40.0, 40.0, 2.5);
    var root := generator.CreateLodTree(pos);
    generator.MinChunkSizeTree(pos, Point(40.0, 40.0));
    sizeAtQuery := GetChunkSize(root, 256, Point(40.0, 40.0));
    generator.ViewerChunkIsSmallest(pos);
    sizeUnderViewer := ChunkSizeAt(root, 256, Point(pos.x, pos.z));
  }

  class LodTreeGenerator {
    const size: int
    const chunkRes: int
    /**
     * The distance below which a node of twice the chunk size is split; a
     * public member the caller sets, left uninitialised by the constructor.
     */
    var cascadeFactor: real

    /**
     * The constructor asserts that both sizes are powers of two above one;
     * it does not give the cascade factor a value.
     */
    constructor (size: int, chunkRes: int)
      requires PowerOfTwo(size) && PowerOfTwo(chunkRes) && chunkRes > 1 && size > 1
      ensures this.size == size && this.chunkRes == chunkRes
    {
      this.size := size;
      this.chunkRes := chunkRes;
    }

    /**
     * `CreateLodTree_recurse` from a fresh node: no split at or below the
     * chunk size or beyond the threshold; otherwise four children, bl, br,
     * tl, tr, of half the size with a quarter of the threshold.
     */
    function Build(x: int, y: int, nodeSize: int, threshold: real, pos: Vec3): (t: LodNode)
      requires chunkRes >= 1 && nodeSize >= 0
      ensures t.Node? && ZeroOrFour(t)
      ensures nodeSize <= chunkRes ==> t == Leaf
      ensures t != Leaf <==> nodeSize > chunkRes && WithinThreshold(DistanceSq(x, y, nodeSize, pos), threshold)
      decreases nodeSize
    {
      if nodeSize <= chunkRes then Leaf
      else if !WithinThreshold(DistanceSq(x, y, nodeSize, pos), threshold) then Leaf
      else
        var t := threshold / CASCADE_MUL_FACTOR;
        var h := nodeSize / 2;
        Node(Build(x, y, h, t, pos), Build(x + h, y, h, t, pos), Build(x, y + h, h, t, pos), Build(x + h, y + h, h, t, pos))
    }

    /** Unfolds `Build` at a node that is split. */
    lemma BuildSplits(x: int, y: int, nodeSize: int, threshold: real, pos: Vec3)
      requires chunkRes >= 1 && nodeSize > chunkRes && WithinThreshold(DistanceSq(x, y, nodeSize, pos), threshold)
      ensures var q, h := threshold / CASCADE_MUL_FACTOR, nodeSize / 2;
        Build(x, y, nodeSize, threshold, pos) == Node(Build(x, y, h, q, pos), Build(x + h, y, h, q, pos), Build(x, y + h, h, q, pos), Build(x + h, y + h, h, q, pos))
    {
    }

    /** The threshold a node of side n is tested against: the cascade factor at twice the chunk size, times four per level up. */
    function ThresholdFor(n: int): (t: real)
      reads this
      requires chunkRes >= 1
      ensures n == 2 * chunkRes ==> t == cascadeFactor
    {
      Threshold(cascadeFactor, chunkRes, n)
    }

    /**
     * A split node tested against the threshold for its own size hands each
     * child the threshold for the child's size: by induction from the root,
     * every node of side n is tested against `ThresholdFor(n)`.
     */
    lemma SplitPassesOwnThreshold(x: int, y: int, nodeSize: int, pos: Vec3)
      requires chunkRes >= 1 && nodeSize > chunkRes && nodeSize % 2 == 0
      requires WithinThreshold(DistanceSq(x, y, nodeSize, pos), ThresholdFor(nodeSize))
      ensures var h := nodeSize / 2; var t := ThresholdFor(h);
        Build(x, y, nodeSize, ThresholdFor(nodeSize), pos) == Node(Build(x, y, h, t, pos), Build(x + h, y, h, t, pos), Build(x, y + h, h, t, pos), Build(x + h, y + h, h, t, pos))
    {
      ThresholdQuarters(cascadeFactor, chunkRes, nodeSize);
      BuildSplits(x, y, nodeSize, ThresholdFor(nodeSize), pos);
    }

    /** The nodes of a built tree of power-of-two size halve evenly down to the leaves. */
    lemma BuildHalvable(x: int, y: int, nodeSize: int, threshold: real, pos: Vec3)
      requires chunkRes > 1 && PowerOfTwo(chunkRes) && PowerOfTwo(nodeSize) && nodeSize > 1
      ensures Halvable(Build(x, y, nodeSize, threshold, pos), nodeSize)
      decreases nodeSize
    {
      if nodeSize > chunkRes && WithinThreshold(DistanceSq(x, y, nodeSize, pos), threshold) {
        PowerOfTwoHalf(nodeSize, chunkRes);
        var h := nodeSize / 2;
        var q := threshold / CASCADE_MUL_FACTOR;
        BuildHalvable(x, y, h, q, pos);
        BuildHalvable(x + h, y, h, q, pos);
        BuildHalvable(x, y + h, h, q, pos);
        BuildHalvable(x + h, y + h, h, q, pos);
        BuildSplits(x, y, nodeSize, threshold, pos);
      } else {
        assert Build(x, y, nodeSize, threshold, pos) == Leaf;
        assert nodeSize % 2 == 0;
      }
    }

    /**
     * The node under the viewer is split all the way down: built from a node
     * of power-of-two side at least the chunk size whose square contains the
     * viewer's ground point, with a non-negative threshold, every node on
     * the way to that point is larger than a chunk and at distance zero, so
     * the lookup of the point answers the chunk size.
     */
    lemma {:induction false} BuildUnderViewer(x: int, y: int, nodeSize: int, threshold: real, pos: Vec3)
      requires chunkRes > 1 && PowerOfTwo(chunkRes) && PowerOfTwo(nodeSize) && chunkRes <= nodeSize < SIZE_RANGE
      requires threshold >= 0.0 && Square(x, y, nodeSize).Contains(Point(pos.x, pos.z))
      ensures ChunkSizeAt(Build(x, y, nodeSize, threshold, pos), nodeSize, Point(pos.x - x as real, pos.z - y as real)) == chunkRes
      decreases nodeSize
    {
      if nodeSize == chunkRes {
        assert chunkRes % 2 == 0;
        ChunkSizeAtOfLeaf(nodeSize, Point(pos.x - x as real, pos.z - y as real));
      } else {
        PowerOfTwoHalf(nodeSize, chunkRes);
        var cx, cy := ViewerSplitStep(x, y, nodeSize, threshold, pos);
        BuildUnderViewer(cx, cy, nodeSize / 2, threshold / CASCADE_MUL_FACTOR, pos);
      }
    }

    /**
     * One step of `BuildUnderViewer`: the node is split, and the lookup of
     * the viewer's point goes on in the child built over the quadrant
     * (cx, cy) the point lies in, which contains it.
     */
    lemma ViewerSplitStep(x: int, y: int, nodeSize: int, threshold: real, pos: Vec3) returns (cx: int, cy: int)
      requires chunkRes >= 1 && nodeSize > chunkRes && nodeSize % 2 == 0 && nodeSize < SIZE_RANGE
      requires threshold >= 0.0 && Square(x, y, nodeSize).Contains(Point(pos.x, pos.z))
      ensures Square(cx, cy, nodeSize / 2).Contains(Point(pos.x, pos.z))
      ensures ChunkSizeAt(Build(x, y, nodeSize, threshold, pos), nodeSize, Point(pos.x - x as real, pos.z - y as real))
           == ChunkSizeAt(Build(cx, cy, nodeSize / 2, threshold / CASCADE_MUL_FACTOR, pos), nodeSize / 2, Point(pos.x - cx as real, pos.z - cy as real))
    {
      OverIsWithin(x, y, nodeSize, threshold, pos);
      BuildSplits(x, y, nodeSize, threshold, pos);
      var h := nodeSize / 2;
      var q := Point(pos.x - x as real, pos.z - y as real);
      var up, right := q.y > h as real, q.x > h as real;
      cx, cy := QuadrantOf(x, y, nodeSize, Point(pos.x, pos.z), up, right);
      var t := Build(x, y, nodeSize, threshold, pos);
      var child := Build(cx, cy, h, threshold / CASCADE_MUL_FACTOR, pos);
      assert Quadrant(t, up, right) == child;
      ChunkSizeAtStep(t, nodeSize, q, up, right, child, Point(pos.x - cx as real, pos.z - cy as real));
    }

    /**
     * The tree `CreateLodTree` builds for a viewer over the terrain, with a
     * non-negative cascade factor, has a chunk of the minimum size under the
     * viewer.
     */
    lemma ViewerChunkIsSmallest(pos: Vec3)
      requires PowerOfTwo(size) && PowerOfTwo(chunkRes) && chunkRes > 1 && chunkRes <= size < SIZE_RANGE
      requires cascadeFactor >= 0.0 && Square(0, 0, size).Contains(Point(pos.x, pos.z))
      ensures ChunkSizeAt(Build(0, 0, size, ThresholdFor(size), pos), size, Point(pos.x, pos.z)) == chunkRes
    {
      var threshold := ThresholdFor(size);
      ThresholdNonNegative(cascadeFactor, chunkRes, size);
      assert Point(pos.x - 0 as real, pos.z - 0 as real) == Point(pos.x, pos.z);
      BuildUnderViewer(0, 0, size, threshold, pos);
    }

    /**
     * The tree of the `VerifyMinChunkSizeAtLocalPoint` test: sizes 256 and
     * 16, cascade factor 32, viewer at (40, 40, 2.5). The written lookup of
     * (40, 40) descends through the bottom left nodes of sides 128, 64 and
     * 32; the 32-node is split, since the viewer is 8 away from it, and the
     * point falls in its top right leaf of side 16.
     */
    lemma MinChunkSizeTree(pos: Vec3, p: Point)
      requires chunkRes == 16 && cascadeFactor == 32.0
      requires pos == Vec3(40.0, 40.0, 2.5) && p == Point(40.0, 40.0)
      ensures GetChunkSize(Build(0, 0, 256, ThresholdFor(256), pos), 256, p) == 16
    {
      assert ThresholdFor(256) == 2048.0;
      OverIsWithin(0, 0, 256, 2048.0, pos);
      WrittenLookupBottomLeft(256, 2048.0, pos, p);
      OverIsWithin(0, 0, 128, 512.0, pos);
      WrittenLookupBottomLeft(128, 512.0, pos, p);
      OverIsWithin(0, 0, 64, 128.0, pos);
      WrittenLookupBottomLeft(64, 128.0, pos, p);
      LookupInSplit32(pos, p);
    }

    /**
     * A split node at the origin whose side bounds both coordinates of the
     * point: the written lookup, given the full side, goes on in the bottom
     * left child with half of it.
     */
    lemma WrittenLookupBottomLeft(nodeSize: int, threshold: real, pos: Vec3, p: Point)
      requires chunkRes >= 1 && chunkRes < nodeSize < SIZE_RANGE && WithinThreshold(DistanceSq(0, 0, nodeSize, pos), threshold)
      requires p.x <= nodeSize as real && p.y <= nodeSize as real
      ensures GetChunkSize(Build(0, 0, nodeSize, threshold, pos), nodeSize, p)
           == GetChunkSize(Build(0, 0, nodeSize / 2, threshold / CASCADE_MUL_FACTOR, pos), nodeSize / 2, p)
    {
      BuildSplits(0, 0, nodeSize, threshold, pos);
    }

    /** The last step of `MinChunkSizeTree`: the 32-node at the origin is split and (40, 40) falls in its top right leaf. */
    lemma LookupInSplit32(pos: Vec3, p: Point)
      requires chunkRes == 16 && pos == Vec3(40.0, 40.0, 2.5) && p == Point(40.0, 40.0)
      ensures GetChunkSize(Build(0, 0, 32, 32.0, pos), 32, p) == 16
    {
      assert DistanceSq(0, 0, 32, pos) == 64.0;
      BuildSplits(0, 0, 32, 32.0, pos);
      assert Build(16, 16, 16, 8.0, pos) == Leaf;
      assert GetChunkSize(Build(0, 0, 32, 32.0, pos), 32, p) == GetChunkSize(Leaf, 16, Point(8.0, 8.0));
      GetChunkSizeOfLeaf(16, Point(8.0, 8.0));
    }

    /**
     * `CreateLodTree`: the loop raises the threshold by four for every
     * halving from the terrain size down to the chunk size, then the tree is
     * built from the origin. With size = chunkRes * 2^k the root threshold is
     * cascadeFactor * 4^(k-1), the threshold for the terrain's size.
     */
    method CreateLodTree(pos: Vec3) returns (root: LodNode)
      requires PowerOfTwo(size) && PowerOfTwo(chunkRes) && chunkRes > 1 && size > 1
      ensures size >= chunkRes ==> root == Build(0, 0, size, ThresholdFor(size), pos)
      ensures size < chunkRes ==> root == Build(0, 0, size, cascadeFactor / CASCADE_MUL_FACTOR, pos) == Leaf
    {
      var s := size;
      var cascadeReal := cascadeFactor / CASCADE_MUL_FACTOR;
      while s > chunkRes
        invariant PowerOfTwo(s) && s <= size
        invariant size >= chunkRes ==> s >= chunkRes
        invariant cascadeReal * Sq(s as real) == cascadeFactor / 4.0 * Sq(size as real)
        decreases s
      {
        PowerOfTwoHalf(s, chunkRes);
        ScaleStep(cascadeReal, s, cascadeFactor / 4.0 * Sq(size as real));
        cascadeReal := cascadeReal * CASCADE_MUL_FACTOR;
        s := s / 2;
      }
      if size >= chunkRes {
        assert s == chunkRes;
        ThresholdFromScale(cascadeReal, cascadeFactor, chunkRes, size);
      }
      root := Build(0, 0, size, cascadeReal, pos);
    }
  }
}
