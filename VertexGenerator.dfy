/**
 * The vertex generator (include/terrain/VertexGenerator.hpp). A vertex at
 * grid point (x, y) is made one of three ways: inside a chunk from the
 * height map around it; on a chunk edge between chunks of different detail
 * by interpolating the coarser neighbour's two grid vertices; at a corner
 * from the four chunks that meet there. The height map, `glm::normalize`
 * and `glm::cross` are parameters the model knows nothing about; positions,
 * texture coordinates and blend weights are exact reals.
 */
module VertexGenerators {
  import opened Ints
  import opened Arith
  import opened Options
  import opened LodNodes
  import opened LodTreeGenerators

  datatype Vec2 = Vec2(u: real, v: real)

  /** `Vertex`: position, normal, texture coordinate and tangent. */
  datatype Vertex = Vertex(position: Vec3, normal: Vec3, texcoord: Vec2, tangent: Vec3)

  function Minus(a: Vec3, b: Vec3): Vec3
  {
    Vec3(a.x - b.x, a.y - b.y, a.z - b.z)
  }

  function Plus(a: Vec3, b: Vec3): Vec3
  {
    Vec3(a.x + b.x, a.y + b.y, a.z + b.z)
  }

  function Times(a: Vec3, s: real): Vec3
  {
    Vec3(a.x * s, a.y * s, a.z * s)
  }

  /** `a * (1 - mix) + b * mix`, component by component. */
  function Lerp(a: Vec3, b: Vec3, mix: real): Vec3
  {
    Plus(Times(a, 1.0 - mix), Times(b, mix))
  }

  function Lerp2(a: Vec2, b: Vec2, mix: real): Vec2
  {
    Vec2(a.u * (1.0 - mix) + b.u * mix, a.v * (1.0 - mix) + b.v * mix)
  }

  /** Every field of the edge vertex blended from the floor and ceiling vertices. */
  function Blend(a: Vertex, b: Vertex, mix: real): (v: Vertex)
    ensures mix == 0.0 ==> v == a
    ensures mix == 1.0 ==> v == b
  {
    Vertex(Lerp(a.position, b.position, mix), Lerp(a.normal, b.normal, mix),
           Lerp2(a.texcoord, b.texcoord, mix), Lerp(a.tangent, b.tangent, mix))
  }

  /** 2^31: the first value a 32-bit `int` cannot hold. */
  const INT_LIMIT: nat := 0x8000_0000

  /**
   * A `size_t` narrowed to `int`, as the height map's `Get(int, int)` and
   * the edge path's `glm::ivec2` receive it: the low 32 bits, read in two's
   * complement.
   */
  function ToInt(n: SizeT): (r: int)
    ensures -(INT_LIMIT as int) <= r < INT_LIMIT
    ensures n < INT_LIMIT ==> r == n
    ensures (r - n) % UINT_RANGE == 0
  {
    var low := n % UINT_RANGE;
    if low < INT_LIMIT then low else low - UINT_RANGE
  }

  function Max(a: SizeT, b: SizeT): (m: SizeT)
    ensures m >= a && m >= b && (m == a || m == b)
  {
    if a >= b then a else b
  }

  /** What an edge vertex is interpolated from: the axis it moves along (0 for x, 1 for y), the two grid points and the mix. */
  datatype EdgeSample = EdgeSample(axis: nat, floor: (SizeT, SizeT), ceil: (SizeT, SizeT), mix: real)

  /**
   * The sample points of `CreateVertex_edge`. The point is held in a
   * `glm::ivec2`, so both coordinates are narrowed to `int`. The coordinate
   * along the edge is the one not already a multiple of the effective step
   * (x unless x is one). Its remainder and its rounding down are computed in
   * `size_t` and stored back as `int`, and the ceiling adds one step the same
   * way; each point goes back to `size_t` for `CreateVertex_internal`. While
   * the coordinates and one step past them fit in an `int`, the floor is the
   * multiple of the step just below the point, the ceiling one step above,
   * and the mix is how far between the two the point lies.
   */
  function EdgeSampleAt(x: SizeT, y: SizeT, eff: SizeT): (e: EdgeSample)
    requires eff > 0
    ensures e.axis == (if x % eff == 0 then 1 else 0)
    ensures 0.0 <= e.mix < 1.0
    ensures x + eff < INT_LIMIT && y + eff < INT_LIMIT ==>
      && (e.axis == 0 ==> e.floor.1 == y && e.ceil == (e.floor.0 + eff, y))
      && (e.axis == 0 ==> e.floor.0 % eff == 0 && e.floor.0 <= x < e.floor.0 + eff)
      && (e.axis == 0 ==> e.mix == (x - e.floor.0) as real / eff as real)
      && (e.axis == 1 ==> e.floor.0 == x && e.ceil == (x, e.floor.1 + eff))
      && (e.axis == 1 ==> e.floor.1 % eff == 0 && e.floor.1 <= y < e.floor.1 + eff)
      && (e.axis == 1 ==> e.mix == (y - e.floor.1) as real / eff as real)
  {
    var axis := if x % eff == 0 then 1 else 0;
    var px, py := ToInt(x), ToInt(y);
    var along := ToSize(if axis == 0 then px else py);
    var rem := along % eff;
    RemainderFraction(rem, eff);
    var f := ToInt(FloorTo(along, eff));
    var g := ToInt(ToSize(ToSize(f) + eff));
    if axis == 0 then
      EdgeSample(0, (ToSize(f), ToSize(py)), (ToSize(g), ToSize(py)), rem as real / eff as real)
    else
      EdgeSample(1, (ToSize(px), ToSize(f)), (ToSize(px), ToSize(g)), rem as real / eff as real)
  }

  /** `c` rounded down to a multiple of `eff`; it equals `c` exactly when `c` is already a multiple. */
  function FloorTo(c: SizeT, eff: SizeT): (f: SizeT)
    requires eff > 0
    ensures f % eff == 0 && f <= c < f + eff
    ensures f == c <==> c % eff == 0
  {
    RoundDown(c, eff);
    c - c % eff
  }

  /**
   * On an edge (x or y off the effective step's grid) whose coordinates fit
   * in an `int`, the vertex lies strictly between its floor and ceiling
   * points.
   */
  lemma EdgeMixBetween(x: SizeT, y: SizeT, eff: SizeT)
    requires eff > 0 && (x % eff != 0 || y % eff != 0)
    requires x < INT_LIMIT && y < INT_LIMIT
    ensures 0.0 < EdgeSampleAt(x, y, eff).mix < 1.0
  {
    var c := if x % eff == 0 then y else x;
    assert ToSize(ToInt(c)) == c;
    Fraction((c % eff) as real, eff as real);
  }

  /**
   * Beyond `int`, the edge path leaves its point: at x = 2^31 + 1 with step
   * 2, the `ivec2` holds x as -2^31 + 1, so the floor point is
   * 2^64 - 2^31 rather than 2^31.
   */
  lemma EdgeSampleNarrows()
    ensures EdgeSampleAt(INT_LIMIT + 1, 0, 2).floor == (SIZE_RANGE - INT_LIMIT, 0)
    ensures EdgeSampleAt(INT_LIMIT + 1, 0, 2).ceil == (SIZE_RANGE - INT_LIMIT + 2, 0)
    ensures EdgeSampleAt(INT_LIMIT + 1, 0, 2).mix == 0.5
  {
    var x: SizeT := INT_LIMIT + 1;
    assert x % 2 == 1;
    assert ToInt(x) == 1 - INT_LIMIT;
    var along := ToSize(1 - INT_LIMIT);
    assert along == SIZE_RANGE - INT_LIMIT + 1;
    assert along % 2 == 1;
    assert FloorTo(along, 2) == SIZE_RANGE - INT_LIMIT;
    assert ToInt(SIZE_RANGE - INT_LIMIT) == -(INT_LIMIT as int);
    assert ToSize(-(INT_LIMIT as int)) + 2 == SIZE_RANGE - INT_LIMIT + 2;
    assert ToInt(SIZE_RANGE - INT_LIMIT + 2) == 2 - INT_LIMIT;
    assert ToSize(2 - INT_LIMIT) == SIZE_RANGE - INT_LIMIT + 2;
  }

  /** A remainder over its divisor is a fraction in [0, 1). */
  lemma RemainderFraction(r: nat, d: nat)
    requires r < d
    ensures 0.0 <= r as real / d as real < 1.0
  {
    if r > 0 {
      Fraction(r as real, d as real);
    }
  }

  /** A quotient of positive reals with the smaller on top lies strictly between 0 and 1. */
  lemma Fraction(a: real, b: real)
    requires 0.0 < a < b
    ensures 0.0 < a / b < 1.0
  {
    var q := a / b;
    assert q * b == a;
    if q <= 0.0 {
      SignOfProduct(-q, b);
    } else if q >= 1.0 {
      SignOfProduct(q - 1.0, b);
    }
  }

  lemma SignOfProduct(p: real, b: real)
    requires p >= 0.0 && b > 0.0
    ensures p * b >= 0.0
  {
  }

  /** Interpolating f s and (f + e) s at (c - f) / e lands on c s. */
  lemma LerpExact(f: real, e: real, c: real, s: real)
    requires e > 0.0
    ensures f * s * (1.0 - (c - f) / e) + (f + e) * s * ((c - f) / e) == c * s
  {
    var m := (c - f) / e;
    assert m * e == c - f;
    calc {
      f * s * (1.0 - m) + (f + e) * s * m;
      f * s + s * (m * e);
      f * s + s * (c - f);
      c * s;
    }
  }

  /** Interpolating the line c s - o between f and f + e at (c - f) / e lands on it. */
  lemma LerpLine(f: real, e: real, c: real, s: real, o: real)
    requires e > 0.0
    ensures (f * s - o) * (1.0 - (c - f) / e) + ((f + e) * s - o) * ((c - f) / e) == c * s - o
  {
    LerpExact(f, e, c, s);
    LerpShift(f * s, (f + e) * s, o, (c - f) / e);
  }

  /**
   * Along a row of the grid, interpolating the points f and f + e at
   * (c - f) / e gives the point c: the coordinate along the row comes out
   * exact and the one across it is kept.
   */
  lemma LerpRow(f: nat, e: nat, c: nat, s: real, o: real, a: Vec3, b: Vec3)
    requires e > 0 && a.x == f as real * s - o && b.x == (f + e) as real * s - o && a.z == b.z
    ensures Lerp(a, b, (c - f) as real / e as real).x == c as real * s - o
    ensures Lerp(a, b, (c - f) as real / e as real).z == a.z
  {
    var m := (c - f) as real / e as real;
    assert m == (c as real - f as real) / e as real;
    assert (f + e) as real == f as real + e as real;
    assert b.x == (f as real + e as real) * s - o;
    LerpLine(f as real, e as real, c as real, s, o);
    assert Lerp(a, b, m).x == a.x * (1.0 - m) + b.x * m;
    LerpConst(a.z, m);
  }

  /** The same along a column: the coordinate along it is z. */
  lemma LerpColumn(f: nat, e: nat, c: nat, s: real, o: real, a: Vec3, b: Vec3)
    requires e > 0 && a.z == f as real * s - o && b.z == (f + e) as real * s - o && a.x == b.x
    ensures Lerp(a, b, (c - f) as real / e as real).z == c as real * s - o
    ensures Lerp(a, b, (c - f) as real / e as real).x == a.x
  {
    var m := (c - f) as real / e as real;
    assert m == (c as real - f as real) / e as real;
    assert (f + e) as real == f as real + e as real;
    assert b.z == (f as real + e as real) * s - o;
    LerpLine(f as real, e as real, c as real, s, o);
    assert Lerp(a, b, m).z == a.z * (1.0 - m) + b.z * m;
    LerpConst(a.x, m);
  }

  /** Texture coordinates interpolate the same way along a row. */
  lemma TexLerpRow(f: nat, e: nat, c: nat, s: real, w: real, a: Vec2, b: Vec2)
    requires e > 0 && a == Vec2(f as real * s, w) && b == Vec2((f + e) as real * s, w)
    ensures Lerp2(a, b, (c - f) as real / e as real) == Vec2(c as real * s, w)
  {
    var m := (c - f) as real / e as real;
    assert m == (c as real - f as real) / e as real;
    assert (f + e) as real == f as real + e as real;
    LerpExact(f as real, e as real, c as real, s);
    LerpConst(w, m);
  }

  /** And along a column. */
  lemma TexLerpColumn(f: nat, e: nat, c: nat, s: real, w: real, a: Vec2, b: Vec2)
    requires e > 0 && a == Vec2(w, f as real * s) && b == Vec2(w, (f + e) as real * s)
    ensures Lerp2(a, b, (c - f) as real / e as real) == Vec2(w, c as real * s)
  {
    var m := (c - f) as real / e as real;
    assert m == (c as real - f as real) / e as real;
    assert (f + e) as real == f as real + e as real;
    LerpExact(f as real, e as real, c as real, s);
    LerpConst(w, m);
  }

  /** Interpolating a value with itself gives it back. */
  lemma LerpConst(a: real, m: real)
    ensures a * (1.0 - m) + a * m == a
  {
  }

  /** Interpolation commutes with subtracting an offset. */
  lemma LerpShift(a: real, b: real, o: real, m: real)
    ensures (a - o) * (1.0 - m) + (b - o) * m == a * (1.0 - m) + b * m - o
  {
  }

  /** One of the four products of `CreateVertex_corner`: a `size_t` product converted to float. */
  function Tri(a: SizeT, b: SizeT): real
  {
    ToSize(a * b) as real
  }

  /** The chunk sizes around a corner, in vertex steps: one lookup half a unit diagonally off it into each quadrant. */
  datatype CornerSteps = CornerSteps(bl: SizeT, br: SizeT, tl: SizeT, tr: SizeT)
  {
    function Left(): SizeT { Max(bl, tl) }
    function Right(): SizeT { Max(br, tr) }
    function Top(): SizeT { Max(tl, tr) }
    function Bot(): SizeT { Max(bl, br) }

    /** `quad_area`: the four `size_t` products of a horizontal and a vertical step, summed as floats. */
    function Area(): real
    {
      Tri(Left(), Top()) + Tri(Right(), Top()) + Tri(Left(), Bot()) + Tri(Right(), Bot())
    }
  }

  /** The weight of each neighbour's normal and tangent in a corner vertex. */
  datatype Biases = Biases(left: real, right: real, top: real, bot: real)

  /** The corner weights: each side's two products over twice the area. Left and right share one half, top and bottom the other. */
  function BiasesOf(s: CornerSteps): (b: Biases)
    requires s.Area() != 0.0
    ensures b.left + b.right == 0.5 && b.top + b.bot == 0.5
    ensures s.Area() > 0.0 ==> b.left >= 0.0 && b.right >= 0.0 && b.top >= 0.0 && b.bot >= 0.0
  {
    var tl, tr := Tri(s.Left(), s.Top()), Tri(s.Right(), s.Top());
    var bl, br := Tri(s.Left(), s.Bot()), Tri(s.Right(), s.Bot());
    var q := s.Area();
    HalfShares(tl + bl, tr + br);
    HalfShares(tl + tr, bl + br);
    Biases((tl + bl) / (2.0 * q), (tr + br) / (2.0 * q), (tl + tr) / (2.0 * q), (bl + br) / (2.0 * q))
  }

  /** Two parts of a nonzero whole, each over twice the whole, make one half; nonnegative parts give nonnegative shares. */
  lemma HalfShares(a: real, b: real)
    requires a + b != 0.0
    ensures a / (2.0 * (a + b)) + b / (2.0 * (a + b)) == 0.5
    ensures a >= 0.0 && b >= 0.0 ==> a / (2.0 * (a + b)) >= 0.0 && b / (2.0 * (a + b)) >= 0.0
  {
    var d := 2.0 * (a + b);
    assert a / d + b / d == (a + b) / d;
  }

  /**
   * When any of the four lookups of a corner is at least one step and no
   * product wraps, the area is positive, so the weights are defined.
   */
  lemma CornerAreaPositive(s: CornerSteps)
    requires s.bl > 0 || s.br > 0 || s.tl > 0 || s.tr > 0
    requires s.bl < 0x1_0000_0000 && s.br < 0x1_0000_0000 && s.tl < 0x1_0000_0000 && s.tr < 0x1_0000_0000
    ensures s.Area() > 0.0
  {
    SmallProduct(s.Left(), s.Top());
    SmallProduct(s.Right(), s.Top());
    SmallProduct(s.Left(), s.Bot());
    SmallProduct(s.Right(), s.Bot());
    if s.bl > 0 {
      PositiveProduct(s.Left(), s.Bot());
    } else if s.br > 0 {
      PositiveProduct(s.Right(), s.Bot());
    } else if s.tl > 0 {
      PositiveProduct(s.Left(), s.Top());
    } else {
      PositiveProduct(s.Right(), s.Top());
    }
  }

  lemma PositiveProduct(a: nat, b: nat)
    requires a > 0 && b > 0
    ensures a * b > 0
  {
  }

  /** `n1 * left + n2 * right + n3 * top + n4 * bot`. */
  function Weigh(l: Vec3, r: Vec3, t: Vec3, d: Vec3, b: Biases): Vec3
  {
    Plus(Plus(Plus(Times(l, b.left), Times(r, b.right)), Times(t, b.top)), Times(d, b.bot))
  }

  /** Weights totalling one, as the corner weights do, blend four equal neighbours to themselves. */
  lemma WeighUniform(n: Vec3, b: Biases)
    requires b.left + b.right + b.top + b.bot == 1.0
    ensures Weigh(n, n, n, n, b) == n
  {
    assert n.x * b.left + n.x * b.right + n.x * b.top + n.x * b.bot == n.x * (b.left + b.right + b.top + b.bot);
    assert n.y * b.left + n.y * b.right + n.y * b.top + n.y * b.bot == n.y * (b.left + b.right + b.top + b.bot);
    assert n.z * b.left + n.z * b.right + n.z * b.top + n.z * b.bot == n.z * (b.left + b.right + b.top + b.bot);
  }

  /** The three ways `CreateVertex` makes a vertex. */
  datatype Path = Interior | EdgePath(eff: SizeT) | CornerPath

  /**
   * A `VertexGenerator`: the height map, the horizontal and texture scales,
   * the terrain offset and the chunk and tree resolutions, none of which
   * change after construction.
   */
  datatype VertexGenerator = VertexGenerator(
    heightMap: (int, int) -> real,
    normalize: Vec3 -> Vec3,
    cross: (Vec3, Vec3) -> Vec3,
    scale: real,
    scaleTex: real,
    offset: Vec3,
    chunkRes: SizeT,
    treeRes: SizeT)
  {
    /** `GetPosition`: x and y scaled onto the ground plane, the height map's sample as height, less the terrain offset. */
    function GetPosition(x: SizeT, y: SizeT): (r: Vec3)
      ensures scale != 0.0 ==> (r.x + offset.x) / scale == x as real && (r.z + offset.z) / scale == y as real
      ensures r.y + offset.y == heightMap(ToInt(x), ToInt(y))
    {
      Vec3(x as real * scale - offset.x, heightMap(ToInt(x), ToInt(y)) - offset.y, y as real * scale - offset.z)
    }

    function TexcoordAt(x: SizeT, y: SizeT): Vec2
    {
      Vec2(x as real * scaleTex, y as real * scaleTex)
    }

    /**
     * `CreateVertex_internal`: the tangent runs from the sample `step` to the
     * left to the one `step` to the right, the bitangent from `step` below to
     * `step` above (`size_t` arithmetic), and the normal is their cross
     * product.
     */
    function Internal(x: SizeT, y: SizeT, step: SizeT): (r: Vertex)
      ensures PlacedAt(r, x, y) && r.position == GetPosition(x, y)
    {
      var left := GetPosition(ToSize(x - step), y);
      var right := GetPosition(ToSize(x + step), y);
      var down := GetPosition(x, ToSize(y - step));
      var up := GetPosition(x, ToSize(y + step));
      var tangent := normalize(Minus(right, left));
      var bitangent := normalize(Minus(up, down));
      Vertex(GetPosition(x, y), cross(bitangent, tangent), TexcoordAt(x, y), tangent)
    }

    /** A vertex with the texture coordinate and the ground-plane position (x and z) of grid point (x, y). */
    predicate PlacedAt(v: Vertex, x: SizeT, y: SizeT)
    {
      && v.texcoord == TexcoordAt(x, y)
      && v.position.x == x as real * scale - offset.x
      && v.position.z == y as real * scale - offset.z
    }

    /** A position and texture coordinate depend on the height map only at their own grid point. */
    lemma PositionIsLocal(h: (int, int) -> real, x: SizeT, y: SizeT)
      requires h(ToInt(x), ToInt(y)) == heightMap(ToInt(x), ToInt(y))
      ensures this.(heightMap := h).GetPosition(x, y) == GetPosition(x, y)
      ensures this.(heightMap := h).TexcoordAt(x, y) == TexcoordAt(x, y)
    {
    }

    /** An interior vertex depends on the height map only at its own point and its four neighbours `step` away. */
    lemma InternalIsLocal(h: (int, int) -> real, x: SizeT, y: SizeT, step: SizeT)
      requires h(ToInt(x), ToInt(y)) == heightMap(ToInt(x), ToInt(y))
      requires h(ToInt(ToSize(x - step)), ToInt(y)) == heightMap(ToInt(ToSize(x - step)), ToInt(y))
      requires h(ToInt(ToSize(x + step)), ToInt(y)) == heightMap(ToInt(ToSize(x + step)), ToInt(y))
      requires h(ToInt(x), ToInt(ToSize(y - step))) == heightMap(ToInt(x), ToInt(ToSize(y - step)))
      requires h(ToInt(x), ToInt(ToSize(y + step))) == heightMap(ToInt(x), ToInt(ToSize(y + step)))
      ensures this.(heightMap := h).Internal(x, y, step) == Internal(x, y, step)
    {
      PositionIsLocal(h, x, y);
      PositionIsLocal(h, ToSize(x - step), y);
      PositionIsLocal(h, ToSize(x + step), y);
      PositionIsLocal(h, x, ToSize(y - step));
      PositionIsLocal(h, x, ToSize(y + step));
    }

    /** On flat terrain the samples `step` either side of x differ by 2 step scale along x only. */
    lemma FlatAcross(c: real, x: SizeT, y: SizeT, step: SizeT)
      requires forall i: int, j: int :: heightMap(i, j) == c
      requires step <= x && x + step < SIZE_RANGE
      ensures Minus(GetPosition(x + step, y), GetPosition(x - step, y)) == Vec3(2.0 * step as real * scale, 0.0, 0.0)
    {
    }

    /** On flat terrain the samples `step` below and above y differ by 2 step scale along z only. */
    lemma FlatAlong(c: real, x: SizeT, y: SizeT, step: SizeT)
      requires forall i: int, j: int :: heightMap(i, j) == c
      requires step <= y && y + step < SIZE_RANGE
      ensures Minus(GetPosition(x, y + step), GetPosition(x, y - step)) == Vec3(0.0, 0.0, 2.0 * step as real * scale)
    {
    }

    /**
     * On flat terrain, away from the `size_t` wrap, the tangent is the
     * normalized x axis step and the normal the cross product of the
     * normalized z and x steps: (1, 0, 0) and (0, 1, 0) for the real
     * `normalize` and `cross`.
     */
    lemma FlatInternal(c: real, x: SizeT, y: SizeT, step: SizeT)
      requires forall i: int, j: int :: heightMap(i, j) == c
      requires step <= x && step <= y && x + step < SIZE_RANGE && y + step < SIZE_RANGE
      ensures Internal(x, y, step).tangent == normalize(Vec3(2.0 * step as real * scale, 0.0, 0.0))
      ensures Internal(x, y, step).normal
        == cross(normalize(Vec3(0.0, 0.0, 2.0 * step as real * scale)), normalize(Vec3(2.0 * step as real * scale, 0.0, 0.0)))
    {
      FlatAcross(c, x, y, step);
      FlatAlong(c, x, y, step);
    }

    /** `CreateVertex_edge`: the floor and ceiling grid vertices, made with the effective step, blended by the mix. */
    function Edge(x: SizeT, y: SizeT, eff: SizeT): Vertex
      requires eff > 0
    {
      var e := EdgeSampleAt(x, y, eff);
      Blend(Internal(e.floor.0, e.floor.1, eff), Internal(e.ceil.0, e.ceil.1, eff), e.mix)
    }

    /** Interpolating grid points f and f + e of a row at (x - f) / e gives the ground position of x. */
    lemma LerpAcross(f: SizeT, e: SizeT, x: SizeT, y: SizeT)
      requires e > 0 && f + e < SIZE_RANGE
      ensures Lerp(GetPosition(f, y), GetPosition(f + e, y), (x - f) as real / e as real).x == x as real * scale - offset.x
      ensures Lerp(GetPosition(f, y), GetPosition(f + e, y), (x - f) as real / e as real).z == y as real * scale - offset.z
    {
      LerpRow(f, e, x, scale, offset.x, GetPosition(f, y), GetPosition(f + e, y));
    }

    /** And the texture coordinate of x. */
    lemma TexAcross(f: SizeT, e: SizeT, x: SizeT, y: SizeT)
      requires e > 0 && f + e < SIZE_RANGE
      ensures Lerp2(TexcoordAt(f, y), TexcoordAt(f + e, y), (x - f) as real / e as real) == TexcoordAt(x, y)
    {
      TexLerpRow(f, e, x, scaleTex, y as real * scaleTex, TexcoordAt(f, y), TexcoordAt(f + e, y));
    }

    /** Interpolating grid points f and f + e of a column at (y - f) / e gives the ground position of y. */
    lemma LerpAlong(f: SizeT, e: SizeT, x: SizeT, y: SizeT)
      requires e > 0 && f + e < SIZE_RANGE
      ensures Lerp(GetPosition(x, f), GetPosition(x, f + e), (y - f) as real / e as real).x == x as real * scale - offset.x
      ensures Lerp(GetPosition(x, f), GetPosition(x, f + e), (y - f) as real / e as real).z == y as real * scale - offset.z
    {
      LerpColumn(f, e, y, scale, offset.z, GetPosition(x, f), GetPosition(x, f + e));
    }

    /** And the texture coordinate of y. */
    lemma TexAlong(f: SizeT, e: SizeT, x: SizeT, y: SizeT)
      requires e > 0 && f + e < SIZE_RANGE
      ensures Lerp2(TexcoordAt(x, f), TexcoordAt(x, f + e), (y - f) as real / e as real) == TexcoordAt(x, y)
    {
      TexLerpColumn(f, e, y, scaleTex, x as real * scaleTex, TexcoordAt(x, f), TexcoordAt(x, f + e));
    }

    /** The edge vertex blended from grid points f and f + e of a row sits at x, on the ground and in the texture. */
    lemma EdgeAcross(f: SizeT, e: SizeT, x: SizeT, y: SizeT)
      requires e > 0 && f + e < SIZE_RANGE
      ensures Blend(Internal(f, y, e), Internal(f + e, y, e), (x - f) as real / e as real).texcoord == TexcoordAt(x, y)
      ensures Blend(Internal(f, y, e), Internal(f + e, y, e), (x - f) as real / e as real).position.x == x as real * scale - offset.x
      ensures Blend(Internal(f, y, e), Internal(f + e, y, e), (x - f) as real / e as real).position.z == y as real * scale - offset.z
    {
      var lo, hi := Internal(f, y, e), Internal(f + e, y, e);
      assert lo.position == GetPosition(f, y) && lo.texcoord == TexcoordAt(f, y);
      assert hi.position == GetPosition(f + e, y) && hi.texcoord == TexcoordAt(f + e, y);
      LerpAcross(f, e, x, y);
      TexAcross(f, e, x, y);
    }

    /** The same for grid points f and f + e of a column, at y. */
    lemma EdgeAlong(f: SizeT, e: SizeT, x: SizeT, y: SizeT)
      requires e > 0 && f + e < SIZE_RANGE
      ensures Blend(Internal(x, f, e), Internal(x, f + e, e), (y - f) as real / e as real).texcoord == TexcoordAt(x, y)
      ensures Blend(Internal(x, f, e), Internal(x, f + e, e), (y - f) as real / e as real).position.x == x as real * scale - offset.x
      ensures Blend(Internal(x, f, e), Internal(x, f + e, e), (y - f) as real / e as real).position.z == y as real * scale - offset.z
    {
      var lo, hi := Internal(x, f, e), Internal(x, f + e, e);
      assert lo.position == GetPosition(x, f) && lo.texcoord == TexcoordAt(x, f);
      assert hi.position == GetPosition(x, f + e) && hi.texcoord == TexcoordAt(x, f + e);
      LerpAlong(f, e, x, y);
      TexAlong(f, e, x, y);
    }

    /**
     * With exact reals, and while the ceiling point does not wrap, an edge
     * vertex has the texture coordinate and ground position of its own
     * grid point: interpolation is linear in the coordinate.
     */
    lemma EdgeExact(x: SizeT, y: SizeT, eff: SizeT)
      requires eff > 0 && x + eff < INT_LIMIT && y + eff < INT_LIMIT
      ensures PlacedAt(Edge(x, y, eff), x, y)
    {
      var e := EdgeSampleAt(x, y, eff);
      if e.axis == 0 {
        EdgeExactRow(x, y, eff, e.floor.0);
      } else {
        EdgeExactColumn(x, y, eff, e.floor.1);
      }
    }

    /** `EdgeExact` for a point off the step's grid along x, with floor point (f, y). */
    lemma EdgeExactRow(x: SizeT, y: SizeT, eff: SizeT, f: SizeT)
      requires eff > 0 && x + eff < INT_LIMIT && y + eff < INT_LIMIT
      requires EdgeSampleAt(x, y, eff).axis == 0 && EdgeSampleAt(x, y, eff).floor.0 == f
      ensures PlacedAt(Edge(x, y, eff), x, y)
    {
      var e := EdgeSampleAt(x, y, eff);
      assert e.floor == (f, y) && e.ceil == (f + eff, y);
      assert Edge(x, y, eff) == Blend(Internal(f, y, eff), Internal(f + eff, y, eff), (x - f) as real / eff as real);
      EdgeAcross(f, eff, x, y);
    }

    /** `EdgeExact` for a point on the step's grid along x, with floor point (x, f). */
    lemma EdgeExactColumn(x: SizeT, y: SizeT, eff: SizeT, f: SizeT)
      requires eff > 0 && x + eff < INT_LIMIT && y + eff < INT_LIMIT
      requires EdgeSampleAt(x, y, eff).axis == 1 && EdgeSampleAt(x, y, eff).floor.1 == f
      ensures PlacedAt(Edge(x, y, eff), x, y)
    {
      var e := EdgeSampleAt(x, y, eff);
      assert e.floor == (x, f) && e.ceil == (x, f + eff);
      assert Edge(x, y, eff) == Blend(Internal(x, f, eff), Internal(x, f + eff, eff), (y - f) as real / eff as real);
      EdgeAlong(f, eff, x, y);
    }

    /** The chunk size under `p`, in vertex steps. */
    function StepsAt(tree: LodNode, p: Point): SizeT
      requires chunkRes > 0
    {
      GetChunkSize(tree, treeRes, p) / chunkRes
    }

    /** The four lookups of `CreateVertex_corner`, half a unit off (x, y) into each quadrant. */
    function CornerStepsAt(x: SizeT, y: SizeT, tree: LodNode): CornerSteps
      requires chunkRes > 0
    {
      var px, py := x as real, y as real;
      CornerSteps(StepsAt(tree, Point(px - 0.5, py - 0.5)), StepsAt(tree, Point(px + 0.5, py - 0.5)),
                  StepsAt(tree, Point(px - 0.5, py + 0.5)), StepsAt(tree, Point(px + 0.5, py + 0.5)))
    }

    /**
     * `CreateVertex_corner`: position and texture coordinate of the point
     * itself; normal and tangent the normalized weighted sums of those of
     * the four neighbours one step of their own side's size away.
     */
    function Corner(x: SizeT, y: SizeT, tree: LodNode): (r: Vertex)
      requires chunkRes > 0 && CornerStepsAt(x, y, tree).Area() != 0.0
      ensures PlacedAt(r, x, y) && r.position == GetPosition(x, y)
    {
      var s := CornerStepsAt(x, y, tree);
      var b := BiasesOf(s);
      var l := Internal(ToSize(x - s.Left()), y, s.Left());
      var r := Internal(ToSize(x + s.Right()), y, s.Right());
      var t := Internal(x, ToSize(y + s.Top()), s.Top());
      var d := Internal(x, ToSize(y - s.Bot()), s.Bot());
      Vertex(GetPosition(x, y), normalize(Weigh(l.normal, r.normal, t.normal, d.normal, b)),
             TexcoordAt(x, y), normalize(Weigh(l.tangent, r.tangent, t.tangent, d.tangent, b)))
    }

    /** `chunk_res * step` in `size_t`. */
    function ChunkSize(step: SizeT): SizeT
    {
      ToSize(chunkRes * step)
    }

    /**
     * `effective_step`: the larger of the two chunk sizes, in steps, at the
     * points half a unit below left and above right of (x, y).
     */
    function EffectiveStep(x: SizeT, y: SizeT, tree: LodNode): (e: SizeT)
      requires chunkRes > 0
      ensures e >= StepsAt(tree, Point(x as real - 0.5, y as real - 0.5))
      ensures e >= StepsAt(tree, Point(x as real + 0.5, y as real + 0.5))
      ensures e == StepsAt(tree, Point(x as real - 0.5, y as real - 0.5)) || e == StepsAt(tree, Point(x as real + 0.5, y as real + 0.5))
    {
      var below := StepsAt(tree, Point(x as real - 0.5, y as real - 0.5));
      Max(below, StepsAt(tree, Point(x as real + 0.5, y as real + 0.5)))
    }

    /**
     * The case analysis of `CreateVertex`. `None` stands for a `%` by zero
     * (a chunk size or an effective step of zero), which C++ leaves
     * undefined.
     */
    function Route(x: SizeT, y: SizeT, step: SizeT, tree: LodNode): (r: Option<Path>)
      ensures r == Some(Interior) <==> ChunkSize(step) != 0 && x % ChunkSize(step) != 0 && y % ChunkSize(step) != 0
      ensures r == None <==>
        ChunkSize(step) == 0 || ((x % ChunkSize(step) == 0 || y % ChunkSize(step) == 0) && EffectiveStep(x, y, tree) == 0)
      ensures (r.Some? && r.value.EdgePath?) <==>
        && ChunkSize(step) != 0 && (x % ChunkSize(step) == 0 || y % ChunkSize(step) == 0)
        && EffectiveStep(x, y, tree) != 0
        && (x % EffectiveStep(x, y, tree) != 0 || y % EffectiveStep(x, y, tree) != 0)
      ensures r.Some? && r.value.EdgePath? ==> r.value.eff == EffectiveStep(x, y, tree)
      ensures r == Some(CornerPath) <==>
        && ChunkSize(step) != 0 && (x % ChunkSize(step) == 0 || y % ChunkSize(step) == 0)
        && EffectiveStep(x, y, tree) != 0
        && x % EffectiveStep(x, y, tree) == 0 && y % EffectiveStep(x, y, tree) == 0
    {
      var size := ChunkSize(step);
      if size == 0 then None
      else if x % size == 0 || y % size == 0 then
        var eff := EffectiveStep(x, y, tree);
        if eff == 0 then None
        else if x % eff != 0 || y % eff != 0 then Some(EdgePath(eff))
        else Some(CornerPath)
      else Some(Interior)
    }

    /**
     * `CreateVertex`: the vertex made along the route the case analysis
     * picks. A corner whose area is zero gives a NaN normal, which the model
     * does not represent: `None` there too.
     */
    function CreateVertex(x: SizeT, y: SizeT, step: SizeT, tree: LodNode): Option<Vertex>
    {
      match Route(x, y, step, tree)
      case None => None
      case Some(Interior) => Some(Internal(x, y, step))
      case Some(EdgePath(eff)) => Some(Edge(x, y, eff))
      case Some(CornerPath) =>
        if CornerStepsAt(x, y, tree).Area() == 0.0 then None else Some(Corner(x, y, tree))
    }

    /**
     * Every vertex made, interior, edge or corner, has the texture
     * coordinate and the ground position of its own grid point, so chunks
     * of different detail meet without cracks in the ground plane. This
     * holds while the edge path's `glm::ivec2` can hold the point and a
     * step past it: the coordinates plus twice the tree resolution, the
     * largest effective step, stay below 2^31.
     */
    lemma CreateVertexPlacesAtCoordinates(x: SizeT, y: SizeT, step: SizeT, tree: LodNode)
      requires x + 2 * treeRes < INT_LIMIT && y + 2 * treeRes < INT_LIMIT
      ensures CreateVertex(x, y, step, tree).Some? ==> PlacedAt(CreateVertex(x, y, step, tree).value, x, y)
    {
      match Route(x, y, step, tree)
      case None =>
      case Some(Interior) =>
        assert PlacedAt(Internal(x, y, step), x, y);
      case Some(EdgePath(eff)) =>
        EdgeRoutePlaces(x, y, eff, tree);
      case Some(CornerPath) =>
    }

    /** The edge branch of `CreateVertexPlacesAtCoordinates`: the effective step is small enough for `EdgeExact`. */
    lemma EdgeRoutePlaces(x: SizeT, y: SizeT, eff: SizeT, tree: LodNode)
      requires x + 2 * treeRes < INT_LIMIT && y + 2 * treeRes < INT_LIMIT
      requires chunkRes > 0 && eff == EffectiveStep(x, y, tree) && eff > 0
      ensures PlacedAt(Edge(x, y, eff), x, y)
    {
      StepsBound(tree, Point(x as real - 0.5, y as real - 0.5));
      StepsBound(tree, Point(x as real + 0.5, y as real + 0.5));
      EdgeExact(x, y, eff);
    }

    /** On a corner, the effective step is one of the corner's own diagonal lookups, so a positive step makes the area positive. */
    lemma CornerRouteHasArea(x: SizeT, y: SizeT, step: SizeT, tree: LodNode)
      requires Route(x, y, step, tree) == Some(CornerPath)
      requires treeRes < 0x8000_0000
      ensures CreateVertex(x, y, step, tree).Some?
    {
      var s := CornerStepsAt(x, y, tree);
      assert s.bl > 0 || s.tr > 0;
      StepsBound(tree, Point(x as real - 0.5, y as real - 0.5));
      StepsBound(tree, Point(x as real + 0.5, y as real - 0.5));
      StepsBound(tree, Point(x as real - 0.5, y as real + 0.5));
      StepsBound(tree, Point(x as real + 0.5, y as real + 0.5));
      CornerAreaPositive(s);
    }

    /** A chunk size in steps is at most twice the tree resolution. */
    lemma StepsBound(tree: LodNode, p: Point)
      requires chunkRes > 0 && treeRes < SIZE_RANGE / 2
      ensures StepsAt(tree, p) <= 2 * treeRes
    {
      DivLe(GetChunkSize(tree, treeRes, p), chunkRes);
    }
  }

  /** 2^k. */
  function Pow2(k: nat): (p: nat)
    ensures p >= 1
  {
    if k == 0 then 1 else 2 * Pow2(k - 1)
  }

  /**
   * The first loop of `GetStepSizeAtPoint`: while the point's chunk is
   * larger than the reference chunk, the step doubles (`size_t` shift) and
   * the size halves. It ends at or below the reference size, and a positive
   * size stays positive when the reference is.
   */
  function StepUp(res: SizeT, size: SizeT, chunkSize: SizeT): (r: (SizeT, SizeT))
    ensures r.1 <= chunkSize
    ensures size > 0 && chunkSize > 0 ==> r.1 > 0
    decreases size
  {
    if size > chunkSize then StepUp(ToSize(res * 2), size / 2, chunkSize) else (res, size)
  }

  /**
   * The second loop: while the point's chunk is smaller, the step halves
   * and the size doubles. The step never grows. The loop ends only if the
   * size is positive (doubling 0 gives 0); the model also keeps the
   * reference size at most 2^63, so that doubling never wraps.
   */
  function StepDown(res: SizeT, size: SizeT, chunkSize: SizeT): (r: SizeT)
    requires size > 0 || chunkSize == 0
    requires chunkSize <= 0x8000_0000_0000_0000
    ensures r <= res
    decreases chunkSize - size
  {
    if size < chunkSize then StepDown(res / 2, size * 2, chunkSize) else res
  }

  /** What `GetStepSizeAtPoint` returns for a default step and the point's chunk size. */
  function StepSize(stepDefault: SizeT, size: SizeT, chunkSize: SizeT): SizeT
    requires size > 0 || chunkSize == 0
    requires chunkSize <= 0x8000_0000_0000_0000
  {
    var up := StepUp(stepDefault, size, chunkSize);
    StepDown(up.0, up.1, chunkSize)
  }

  /**
   * `GetStepSizeAtPoint`: starting from the default step and the chunk size
   * under the point, the two loops scale the step by the ratio of the
   * point's chunk size to the reference size.
   */
  method GetStepSizeAtPoint(treeSize: SizeT, chunkSize: SizeT, stepDefault: SizeT, tree: LodNode, point: Point)
    returns (res: SizeT)
    requires chunkSize <= 0x8000_0000_0000_0000
    requires chunkSize == 0 || GetChunkSize(tree, treeSize, point) > 0
    ensures res == StepSize(stepDefault, GetChunkSize(tree, treeSize, point), chunkSize)
  {
    res := stepDefault;
    var pointChunkSize: SizeT := GetChunkSize(tree, treeSize, point);
    ghost var up := StepUp(stepDefault, pointChunkSize, chunkSize);
    while pointChunkSize > chunkSize
      invariant StepUp(res, pointChunkSize, chunkSize) == up
      invariant chunkSize == 0 || pointChunkSize > 0
      decreases pointChunkSize
    {
      res := ToSize(res * 2);
      pointChunkSize := pointChunkSize / 2;
    }
    while pointChunkSize < chunkSize
      invariant pointChunkSize > 0 || chunkSize == 0
      invariant StepDown(res, pointChunkSize, chunkSize) == StepDown(up.0, up.1, chunkSize)
      decreases chunkSize - pointChunkSize
    {
      res := res / 2;
      pointChunkSize := ToSize(pointChunkSize * 2);
    }
  }

  /** The state (step, size) after n runs of the second loop's body as written: halve the step, double the size in `size_t`. */
  function StepDownIter(res: SizeT, size: SizeT, n: nat): (r: (SizeT, SizeT))
    decreases n
  {
    if n == 0 then (res, size) else StepDownIter(res / 2, ToSize(size * 2), n - 1)
  }

  /**
   * A looked-up size of 0 stays 0 under doubling, so after any number of
   * runs of the second loop's body its guard `point_chunk_size < chunk_size`
   * still holds for a positive reference size: the loop never ends.
   */
  lemma {:induction false} StepDownStaysAtZero(res: SizeT, chunkSize: SizeT, n: nat)
    requires chunkSize > 0
    ensures StepDownIter(res, 0, n).1 == 0 < chunkSize
    decreases n
  {
    if n > 0 {
      StepDownStaysAtZero(res / 2, chunkSize, n - 1);
    }
  }

  /**
   * The input that reaches it: on a tree that is a single leaf, looked up
   * with `tree_res` 1, `GetChunkSize` answers 0 (the null child's parent
   * side is `2 * (1 / 2)`), and `GetStepSizeAtPoint` with any positive
   * chunk size loops forever.
   */
  lemma UnitLeafNeverEnds(res: SizeT, chunkSize: SizeT, p: Point, n: nat)
    requires chunkSize > 0
    ensures GetChunkSize(Leaf, 1, p) == 0
    ensures StepDownIter(StepUp(res, 0, chunkSize).0, GetChunkSize(Leaf, 1, p), n).1 < chunkSize
  {
    assert GetChunkSize(Leaf, 1, p) == GetChunkSize(Nil, 0, Point(p.x, p.y));
    StepDownStaysAtZero(res, chunkSize, n);
  }

  /**
   * `GetStepSizeAtPoint` with the second loop also stopping at a size of 0,
   * which is what the scaling evidently intends: it always ends, answers the
   * default step when the looked-up size is 0, and otherwise scales as the
   * written loops do.
   */
  method GetStepSizeAtPointGuarded(treeSize: SizeT, chunkSize: SizeT, stepDefault: SizeT, tree: LodNode, point: Point)
    returns (res: SizeT)
    requires chunkSize <= 0x8000_0000_0000_0000
    ensures GetChunkSize(tree, treeSize, point) == 0 ==> res == stepDefault
    ensures GetChunkSize(tree, treeSize, point) > 0 ==> res == StepSize(stepDefault, GetChunkSize(tree, treeSize, point), chunkSize)
  {
    res := stepDefault;
    var pointChunkSize: SizeT := GetChunkSize(tree, treeSize, point);
    ghost var found := pointChunkSize;
    ghost var up := StepUp(stepDefault, pointChunkSize, chunkSize);
    while pointChunkSize > chunkSize
      invariant StepUp(res, pointChunkSize, chunkSize) == up
      invariant found == 0 ==> pointChunkSize == 0 && res == stepDefault
      invariant found > 0 ==> chunkSize == 0 || pointChunkSize > 0
      decreases pointChunkSize
    {
      res := ToSize(res * 2);
      pointChunkSize := pointChunkSize / 2;
    }
    while 0 < pointChunkSize < chunkSize
      invariant found == 0 ==> pointChunkSize == 0 && res == stepDefault
      invariant found > 0 ==> chunkSize == 0 || pointChunkSize > 0
      invariant found > 0 ==> StepDown(res, pointChunkSize, chunkSize) == StepDown(up.0, up.1, chunkSize)
      decreases chunkSize - pointChunkSize
    {
      res := res / 2;
      pointChunkSize := ToSize(pointChunkSize * 2);
    }
  }

  /** Halving a quotient by 2^k: (a / 2) / 2^k == a / 2^(k + 1). */
  lemma DivHalf(a: nat, k: nat)
    ensures a / 2 / Pow2(k) == a / Pow2(k + 1)
  {
    var p := Pow2(k);
    var q, r := a / 2 / p, a / 2 % p;
    assert a / 2 == q * p + r;
    assert a == 2 * (q * p + r) + a % 2;
    assert a == q * (2 * p) + (2 * r + a % 2);
    assert 0 <= 2 * r + a % 2 < 2 * p;
    DivModUnique(a, 2 * p, q, 2 * r + a % 2);
  }

  /**
   * When the point's chunk is 2^k times the reference, the first loop runs
   * k times: the step is the default times 2^k, in `size_t`.
   */
  lemma {:induction false} StepUpScales(res: SizeT, chunkSize: SizeT, k: nat)
    requires chunkSize > 0 && chunkSize * Pow2(k) < SIZE_RANGE
    ensures StepUp(res, chunkSize * Pow2(k), chunkSize) == (ToSize(res * Pow2(k)), chunkSize)
    decreases k
  {
    if k > 0 {
      var p := Pow2(k - 1);
      var n := chunkSize * p;
      MulDouble(chunkSize, p);
      MulDouble(res, p);
      MulLe(1, p, chunkSize);
      assert StepUp(res, 2 * n, chunkSize) == StepUp(ToSize(res * 2), n, chunkSize);
      StepUpScales(ToSize(res * 2), chunkSize, k - 1);
      MulWrap(res * 2, p);
    }
  }

  /**
   * When the reference chunk is 2^k times the point's, the second loop runs
   * k times: the step is the default divided by 2^k, rounded down.
   */
  lemma {:induction false} StepDownScales(res: SizeT, size: SizeT, k: nat)
    requires size > 0 && size * Pow2(k) <= 0x8000_0000_0000_0000
    ensures StepDown(res, size, size * Pow2(k)) == res / Pow2(k)
    decreases k
  {
    if k > 0 {
      var p := Pow2(k - 1);
      assert size * Pow2(k) == (size * 2) * p;
      assert size < size * Pow2(k) by {
        MulLe(1, p, size * 2);
      }
      StepDownScales(res / 2, size * 2, k - 1);
      DivHalf(res, k - 1);
    }
  }

  /**
   * For power-of-two ratios `GetStepSizeAtPoint` scales the default step by
   * point size / chunk size: up by 2^k when the point's chunk is 2^k times
   * larger, down by 2^k when it is 2^k times smaller.
   */
  lemma StepSizeRatio(stepDefault: SizeT, size: SizeT, chunkSize: SizeT, k: nat)
    requires size > 0 && chunkSize > 0 && chunkSize <= 0x8000_0000_0000_0000
    ensures size == chunkSize * Pow2(k) ==> StepSize(stepDefault, size, chunkSize) == ToSize(stepDefault * Pow2(k))
    ensures chunkSize == size * Pow2(k) ==> StepSize(stepDefault, size, chunkSize) == stepDefault / Pow2(k)
  {
    if size == chunkSize * Pow2(k) {
      StepUpScales(stepDefault, chunkSize, k);
    }
    if chunkSize == size * Pow2(k) {
      MulLe(1, Pow2(k), size);
      StepDownScales(stepDefault, size, k);
    }
  }

  /** The tree of the generator's unit tests: a root whose four children are leaves. */
  const FourLeaves: LodNode := Node(Leaf, Leaf, Leaf, Leaf)

  /** The same tree with its bottom right child split once more. */
  const SplitBottomRight: LodNode := Node(Leaf, FourLeaves, Leaf, Leaf)

  /** With 64-vertex chunks on a tree of resolution 128, (60, 60) at step 2 lies inside a chunk, (64, 64) and (128, 128) on corners. */
  lemma FeasibilityRoutes(g: VertexGenerator)
    requires g.chunkRes == 64 && g.treeRes == 128
    ensures g.Route(60, 60, 2, FourLeaves) == Some(Interior)
    ensures g.Route(64, 64, 1, FourLeaves) == Some(CornerPath)
    ensures g.Route(128, 128, 1, FourLeaves) == Some(CornerPath)
  {
    assert g.ChunkSize(2) == 128 && g.ChunkSize(1) == 64;
    var points := [Point(63.5, 63.5), Point(64.5, 64.5), Point(127.5, 127.5), Point(0.5, 0.5)];
    assert GetChunkSize(FourLeaves, 128, points[0]) == GetChunkSize(Leaf, 64, points[0]);
    assert GetChunkSize(FourLeaves, 128, points[1]) == GetChunkSize(Leaf, 64, points[1]);
    assert GetChunkSize(FourLeaves, 128, points[2]) == GetChunkSize(Leaf, 64, points[2]);
    assert GetChunkSize(FourLeaves, 128, Point(128.5, 128.5)) == GetChunkSize(Leaf, 64, points[3]);
    GetChunkSizeOfLeaf(64, points[0]);
    GetChunkSizeOfLeaf(64, points[1]);
    GetChunkSizeOfLeaf(64, points[2]);
    GetChunkSizeOfLeaf(64, points[3]);
    assert g.EffectiveStep(64, 64, FourLeaves) == 1;
    assert g.EffectiveStep(128, 128, FourLeaves) == 1;
  }

  /**
   * With 32-vertex chunks and the bottom right quadrant split, (72, 64) is
   * a corner and (73, 64) an edge interpolated with an effective step of 2:
   * between grid points 72 and 74, half way.
   */
  lemma EdgeCaseRoutes(g: VertexGenerator)
    requires g.chunkRes == 32 && g.treeRes == 128
    ensures g.Route(72, 64, 1, SplitBottomRight) == Some(CornerPath)
    ensures g.Route(73, 64, 1, SplitBottomRight) == Some(EdgePath(2))
    ensures EdgeSampleAt(73, 64, 2) == EdgeSample(0, (72, 64), (74, 64), 0.5)
  {
    assert g.ChunkSize(1) == 32;
    var points := [Point(71.5, 63.5), Point(72.5, 64.5), Point(73.5, 64.5)];
    assert GetChunkSize(SplitBottomRight, 128, points[0]) == GetChunkSize(Leaf, 64, points[0]);
    assert GetChunkSize(SplitBottomRight, 128, points[1]) == GetChunkSize(Leaf, 64, points[1]);
    assert GetChunkSize(SplitBottomRight, 128, points[2]) == GetChunkSize(Leaf, 64, points[2]);
    GetChunkSizeOfLeaf(64, points[0]);
    GetChunkSizeOfLeaf(64, points[1]);
    GetChunkSizeOfLeaf(64, points[2]);
    assert g.EffectiveStep(72, 64, SplitBottomRight) == 2;
    assert g.EffectiveStep(73, 64, SplitBottomRight) == 2;
  }
}
