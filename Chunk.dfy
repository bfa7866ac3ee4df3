/**
 * The vertex grid and index loops of `Chunk::chunk_create`
 * (include/terrain/Chunk.hpp). A chunk of side `chunk_res` has a grid of
 * (chunk_res + 1)^2 vertices and chunk_res^2 quads, two triangles each.
 *
 * As written, the loops use a row stride of `chunk_res` for rows of
 * `chunk_res + 1` points and allocate chunk_res^2 vertices and
 * 6 (chunk_res - 1)^2 indices: the `...AsWritten` members state that code
 * and the lemmas beside them show where it goes wrong. `ChunkCreate` is the
 * corrected loop pair, filling arrays of the sizes the loops need with the
 * stride the grid has.
 */
module Chunks {
  import opened Ints
  import opened Arith

  /** `new Vertex[chunk_res * chunk_res]`: the vertex slots allocated, a `size_t` product. */
  function VertexAllocAsWritten(res: SizeT): SizeT
  {
    ToSize(res * res)
  }

  /** `new unsigned int[(chunk_res - 1) * (chunk_res - 1) * 6]`: the index slots allocated, in `size_t` arithmetic. */
  function IndexAllocAsWritten(res: SizeT): SizeT
  {
    ToSize(ToSize(ToSize(res - 1) * ToSize(res - 1)) * 6)
  }

  /** The slot the vertex loop writes grid point (x, y) to: `x * chunk_res + y`. */
  function VertexSlotAsWritten(res: nat, x: nat, y: nat): nat
  {
    x * res + y
  }

  /** Corner `t` of quad (x, y) as the index loop writes it, from `index_init = y * chunk_res + x`. */
  function QuadCornerAsWritten(res: nat, x: nat, y: nat, t: nat): nat
    requires t < 6
  {
    var i := y * res + x;
    [i, i + 1, i + res, i + 1, i + res + 1, i + res][t]
  }

  /** The vertex loop's last grid point, (res, res), is written past the end of the allocation. */
  lemma VertexLoopOverrunsAsWritten(res: SizeT)
    requires 1 <= res < 0x1_0000_0000
    ensures VertexSlotAsWritten(res, res, res) >= VertexAllocAsWritten(res)
  {
    SmallProduct(res, res);
  }

  /**
   * Grid points (0, res) and (1, 0) are written to the same slot, so the
   * vertex of (1, 0), written first, is lost.
   */
  lemma VertexSlotsCollideAsWritten(res: nat)
    requires res >= 1
    ensures VertexSlotAsWritten(res, 0, res) == VertexSlotAsWritten(res, 1, 0)
  {
  }

  /** The index loop writes 6 res^2 indices into 6 (res - 1)^2 slots. */
  lemma IndexLoopOverrunsAsWritten(res: SizeT)
    requires 1 <= res < 0x1_0000_0000
    ensures 6 * (res * res) > IndexAllocAsWritten(res)
  {
    SmallProduct(res - 1, res - 1);
    MulLe(res - 1, res, res - 1);
    MulLe(res - 1, res, res);
    assert ToSize((res - 1) * (res - 1) * 6) <= (res - 1) * (res - 1) * 6;
  }

  /** Every index the loop writes is at most res^2 + res. */
  lemma QuadCornerAsWrittenBound(res: nat, x: nat, y: nat, t: nat)
    requires x < res && y < res && t < 6
    ensures QuadCornerAsWritten(res, x, y, t) <= res * res + res
  {
    MulLe(y, res - 1, res);
  }

  /**
   * The last quad of row 0 and the first quad of row 1 share an index: with
   * a stride of `chunk_res` the loop joins the end of one row of the
   * (chunk_res + 1)-wide grid to the start of the next.
   */
  lemma QuadRowsShareIndexAsWritten(res: nat)
    requires res >= 1
    ensures QuadCornerAsWritten(res, res - 1, 0, 1) == QuadCornerAsWritten(res, 0, 1, 0)
  {
  }

  /** Row y, column x of a row-major layout of width w: division and remainder recover them. */
  lemma RowDivMod(w: nat, x: nat, y: nat)
    requires x < w
    ensures (y * w + x) / w == y && (y * w + x) % w == x
  {
    DivModUnique(y * w + x, w, y, x);
  }

  /** A row-major position of width w below w^2 lies in one of the first w rows. */
  lemma RowBelow(w: nat, k: nat)
    requires 0 < w && k < w * w
    ensures k / w < w
  {
    if k / w >= w {
      MulLe(w, k / w, w);
      assert false;
    }
  }

  /** Every row-major position (x, y) of a w-by-w layout lies below w^2. */
  lemma RowInside(w: nat, x: nat, y: nat)
    requires x < w && y < w
    ensures y * w + x < w * w
  {
    MulLe(y + 1, w, w);
    NextRow(w, y);
  }

  /** The slot of grid point (x, y) in the grid of rows of `res + 1` points. */
  function Slot(res: nat, x: nat, y: nat): nat
  {
    y * (res + 1) + x
  }

  /** Grid points of a side-`res` chunk have distinct slots, all below (res + 1)^2. */
  lemma SlotsDistinct(res: nat, x1: nat, y1: nat, x2: nat, y2: nat)
    requires x1 <= res && y1 <= res && x2 <= res && y2 <= res
    ensures Slot(res, x1, y1) < (res + 1) * (res + 1)
    ensures Slot(res, x1, y1) == Slot(res, x2, y2) <==> x1 == x2 && y1 == y2
  {
    RowInside(res + 1, x1, y1);
    RowDivMod(res + 1, x1, y1);
    RowDivMod(res + 1, x2, y2);
  }

  /** The vertices the corrected loop stores: slot k holds the vertex of grid point (k % (res + 1), k / (res + 1)). */
  function Grid<V>(vertexAt: (SizeT, SizeT) -> V, offsetX: SizeT, offsetY: SizeT, res: nat): (g: seq<V>)
    ensures |g| == (res + 1) * (res + 1)
  {
    seq((res + 1) * (res + 1), k requires 0 <= k => vertexAt(ToSize(k % (res + 1) + offsetX), ToSize(k / (res + 1) + offsetY)))
  }

  /** Grid point (x, y) has its vertex, made at (x + offset_x, y + offset_y) in `size_t`, at its slot. */
  lemma GridAt<V>(vertexAt: (SizeT, SizeT) -> V, offsetX: SizeT, offsetY: SizeT, res: nat, x: nat, y: nat)
    requires x <= res && y <= res
    ensures Slot(res, x, y) < (res + 1) * (res + 1)
    ensures Grid(vertexAt, offsetX, offsetY, res)[Slot(res, x, y)] == vertexAt(ToSize(x + offsetX), ToSize(y + offsetY))
  {
    RowInside(res + 1, x, y);
    RowDivMod(res + 1, x, y);
  }

  /** Corner `t` of quad (x, y): two triangles over the quad's corners, with the grid's stride. */
  function QuadCorner(res: nat, x: nat, y: nat, t: nat): nat
    requires t < 6
  {
    var i := Slot(res, x, y);
    [i, i + 1, i + res + 1, i + 1, i + res + 2, i + res + 1][t]
  }

  /**
   * The quad (x, y) is drawn as the triangles (bottom left, bottom right,
   * top left) and (bottom right, top right, top left), each corner a grid
   * point of the chunk.
   */
  lemma QuadCornersAreGridPoints(res: nat, x: nat, y: nat)
    requires x < res && y < res
    ensures QuadCorner(res, x, y, 0) == Slot(res, x, y)
    ensures QuadCorner(res, x, y, 1) == QuadCorner(res, x, y, 3) == Slot(res, x + 1, y)
    ensures QuadCorner(res, x, y, 2) == QuadCorner(res, x, y, 5) == Slot(res, x, y + 1)
    ensures QuadCorner(res, x, y, 4) == Slot(res, x + 1, y + 1)
  {
    NextRow(res + 1, y);
  }

  /** Unlike the loop as written, the last quad of a row and the first quad of the next share no corner. */
  lemma QuadRowsApart(res: nat)
    requires res >= 1
    ensures QuadCorner(res, res - 1, 0, 1) != QuadCorner(res, 0, 1, 0)
  {
    QuadCornersAreGridPoints(res, res - 1, 0);
    QuadCornersAreGridPoints(res, 0, 0);
    SlotsDistinct(res, res, 0, 0, 1);
  }

  /** Entry j of the index buffer: corner j % 6 of quad j / 6, quads counted row by row. */
  function IndexAt(res: nat, j: nat): nat
    requires res > 0
  {
    var q := j / 6;
    QuadCorner(res, q % res, q / res, j % 6) % UINT_RANGE
  }

  /** The indices the corrected loop stores as `unsigned int`: six per quad, quads row by row. */
  function Indices(res: nat): (s: seq<nat>)
    ensures |s| == 6 * (res * res)
  {
    if res == 0 then []
    else seq(6 * (res * res), j requires 0 <= j => IndexAt(res, j))
  }

  /** Quad (x, y) has its six corners at positions 6 (y res + x) to 6 (y res + x) + 5. */
  lemma IndicesAt(res: nat, x: nat, y: nat)
    requires x < res && y < res
    ensures 6 * (y * res + x) + 6 <= 6 * (res * res)
    ensures forall j :: 6 * (y * res + x) <= j < 6 * (y * res + x) + 6 ==>
      Indices(res)[j] == QuadCorner(res, x, y, j - 6 * (y * res + x)) % UINT_RANGE
  {
    var q := y * res + x;
    RowInside(res, x, y);
    RowDivMod(res, x, y);
    forall j | 6 * q <= j < 6 * q + 6
      ensures Indices(res)[j] == QuadCorner(res, x, y, j - 6 * q) % UINT_RANGE
    {
      assert j / 6 == q && j % 6 == j - 6 * q;
    }
  }

  /** Every corner of a quad of the chunk is a slot of its grid. */
  lemma QuadCornerInGrid(res: nat, x: nat, y: nat, t: nat)
    requires x < res && y < res && t < 6
    ensures QuadCorner(res, x, y, t) < (res + 1) * (res + 1)
  {
    QuadCornersAreGridPoints(res, x, y);
    var cx, cy := if t in {1, 3, 4} then x + 1 else x, if t in {2, 4, 5} then y + 1 else y;
    SlotsDistinct(res, cx, cy, cx, cy);
  }

  /** When the grid's slots fit in an `unsigned int`, every index names a vertex of the chunk. */
  lemma IndicesNameVertices(res: nat, j: nat)
    requires (res + 1) * (res + 1) <= UINT_RANGE && j < 6 * (res * res)
    ensures Indices(res)[j] < (res + 1) * (res + 1)
  {
    var q := j / 6;
    RowBelow(res, q);
    QuadCornerInGrid(res, q % res, q / res, j % 6);
  }

  /**
   * `Chunk::chunk_create`'s two loops, corrected: the vertex loop stores
   * the vertex of each of the (res + 1)^2 grid points, made at the point
   * offset by (offset_x, offset_y) in `size_t`, at its slot; the index loop
   * then writes the six corners of each quad, advancing the running index
   * offset, which ends at 6 res^2.
   */
  method ChunkCreate<V(0)>(vertexAt: (SizeT, SizeT) -> V, offsetX: SizeT, offsetY: SizeT, res: SizeT)
    returns (vertices: array<V>, indices: array<nat>, indexOffset: nat)
    ensures fresh(vertices) && fresh(indices)
    ensures vertices[..] == Grid(vertexAt, offsetX, offsetY, res)
    ensures indices[..] == Indices(res)
    ensures indexOffset == 6 * (res * res)
  {
    vertices := new V[(res + 1) * (res + 1)];
    FillVertices(vertices, vertexAt, offsetX, offsetY, res);
    indices := new nat[6 * (res * res)];
    indexOffset := FillIndices(indices, res);
  }

  /** The vertex loop: row by row, the vertex of each grid point at its slot. */
  method FillVertices<V>(vertices: array<V>, vertexAt: (SizeT, SizeT) -> V, offsetX: SizeT, offsetY: SizeT, res: SizeT)
    requires vertices.Length == (res + 1) * (res + 1)
    modifies vertices
    ensures vertices[..] == Grid(vertexAt, offsetX, offsetY, res)
  {
    ghost var grid := Grid(vertexAt, offsetX, offsetY, res);
    var y := 0;
    ghost var filled := 0;
    while y <= res
      invariant 0 <= y <= res + 1 && filled == y * (res + 1) <= |grid|
      invariant forall k :: 0 <= k < filled ==> vertices[k] == grid[k]
    {
      MulLe(y + 1, res + 1, res + 1);
      NextRow(res + 1, y);
      var x := 0;
      while x <= res
        invariant 0 <= x <= res + 1
        invariant forall k :: 0 <= k < filled + x ==> vertices[k] == grid[k]
      {
        GridAt(vertexAt, offsetX, offsetY, res, x, y);
        vertices[Slot(res, x, y)] := vertexAt(ToSize(x + offsetX), ToSize(y + offsetY));
        x := x + 1;
      }
      y := y + 1;
      filled := filled + res + 1;
    }
    assert vertices[..] == grid;
  }

  /** The index loop: quads row by row, six indices each, with the running offset it returns. */
  method FillIndices(indices: array<nat>, res: SizeT) returns (indexOffset: nat)
    requires indices.Length == 6 * (res * res)
    modifies indices
    ensures indices[..] == Indices(res)
    ensures indexOffset == 6 * (res * res)
  {
    ghost var ix := Indices(res);
    indexOffset := 0;
    var y := 0;
    while y < res
      invariant 0 <= y <= res
      invariant indexOffset == 6 * (y * res) <= |ix|
      invariant forall j :: 0 <= j < indexOffset ==> indices[j] == ix[j]
    {
      MulLe(y + 1, res, res);
      NextRow(res, y);
      var x := 0;
      while x < res
        invariant 0 <= x <= res
        invariant indexOffset == 6 * (y * res + x)
        invariant forall j :: 0 <= j < indexOffset ==> indices[j] == ix[j]
      {
        IndicesAt(res, x, y);
        WriteQuad(indices, indexOffset, res, x, y);
        indexOffset := indexOffset + 6;
        x := x + 1;
      }
      y := y + 1;
    }
    assert indices[..] == ix;
  }

  /** The six index writes of quad (x, y), from `index_init`, its bottom left slot. */
  method WriteQuad(indices: array<nat>, offset: nat, res: nat, x: nat, y: nat)
    requires offset + 6 <= indices.Length
    modifies indices
    ensures forall j :: 0 <= j < indices.Length && !(offset <= j < offset + 6) ==> indices[j] == old(indices[j])
    ensures forall j :: offset <= j < offset + 6 ==> indices[j] == QuadCorner(res, x, y, j - offset) % UINT_RANGE
  {
    var init := Slot(res, x, y);
    indices[offset] := init % UINT_RANGE;
    indices[offset + 1] := (init + 1) % UINT_RANGE;
    indices[offset + 2] := (init + res + 1) % UINT_RANGE;
    indices[offset + 3] := (init + 1) % UINT_RANGE;
    indices[offset + 4] := (init + res + 2) % UINT_RANGE;
    indices[offset + 5] := (init + res + 1) % UINT_RANGE;
  }
}
