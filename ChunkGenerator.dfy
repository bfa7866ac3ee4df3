/**
 * The chunk traversal (include/terrain/ChunkGenerator.hpp). `UpdateChunks`
 * resets the running index offset, makes room in the chunk cache for every
 * node of the tree, and walks the tree depth first in the order bl, br, tl,
 * tr; every node whose `tl` child is null is a chunk, built and put into the
 * cache under its offsets and side length, without looking it up first.
 */
module ChunkGenerators {
  import opened Ints
  import opened KeyOrder
  import opened LruCaches
  import opened LodNodes
  import opened ChunkIdentifiers

  /** A chunk as the generator uses it: the number of vertices it adds to the shared index range. */
  datatype Chunk = Chunk(vertexCount: nat)

  /**
   * The arguments of one `Chunk::chunk_create` call besides the height map
   * and the terrain offset, which are the same for every call of a generator.
   */
  datatype ChunkRequest = ChunkRequest(offsetX: SizeT, offsetY: SizeT, indexOffset: nat, treeRes: SizeT, chunkRes: SizeT, node: LodNode)

  /**
   * A tree the traversal can walk without dereferencing null: the root is a
   * node, and a node whose `tl` child is set has all four children set, down
   * the tree.
   */
  ghost predicate Walkable(t: LodNode)
  {
    t.Node? && (t.tl.Node? ==> Walkable(t.bl) && Walkable(t.br) && Walkable(t.tl) && Walkable(t.tr))
  }

  /** The trees the builder makes are walkable. */
  lemma {:induction false} ZeroOrFourWalkable(t: LodNode)
    requires t.Node? && ZeroOrFour(t)
    ensures Walkable(t)
  {
    if t.tl.Node? {
      ZeroOrFourWalkable(t.bl);
      ZeroOrFourWalkable(t.br);
      ZeroOrFourWalkable(t.tl);
      ZeroOrFourWalkable(t.tr);
    }
  }

  /**
   * A square of side `res` at (x, y) lies inside the root square of side
   * `treeRes`, a `size_t`. Every square the traversal visits does, so the
   * `size_t` offset sums of the traversal never wrap.
   */
  predicate Inside(x: int, y: int, res: int, treeRes: int)
  {
    0 <= x && 0 <= y && 0 <= res && x + res <= treeRes && y + res <= treeRes && treeRes < SIZE_RANGE
  }

  /** `ChunkIdentifier { offset_x, offset_y, chunk_res }`: the `size_t` offsets narrowed to `long`, which loses nothing. */
  function KeyOf(x: SizeT, y: SizeT, res: SizeT): (k: ChunkIdentifier)
    ensures LongToSize(k.x) == x && LongToSize(k.y) == y && k.size == res
  {
    ChunkIdentifier(ToLong(x), ToLong(y), res)
  }

  /** The number of chunks in a tree: the nodes whose `tl` child is null. */
  function LeafCount(t: LodNode): (n: nat)
    ensures t.Node? ==> n >= 1
  {
    match t
    case Nil => 0
    case Node(bl, br, tl, tr) =>
      if tl.Nil? then 1 else LeafCount(bl) + LeafCount(br) + LeafCount(tl) + LeafCount(tr)
  }

  /** The chunks are the leaves of the tree, wherever the tree is placed. */
  lemma {:induction false} LeafCountIsLeaves(t: LodNode, x: int, y: int, res: int)
    requires Walkable(t)
    ensures |Leaves(t, x, y, res)| == LeafCount(t)
  {
    if t.tl.Node? {
      var h := res / 2;
      LeafCountIsLeaves(t.bl, x, y, h);
      LeafCountIsLeaves(t.br, x + h, y, h);
      LeafCountIsLeaves(t.tl, x, y + h, h);
      LeafCountIsLeaves(t.tr, x + h, y + h, h);
    }
  }

  /** A chunk the traversal meets: its square and its node. */
  datatype Cell = Cell(x: SizeT, y: SizeT, res: SizeT, node: LodNode)

  /** The key a chunk is put under. */
  function Key(c: Cell): ChunkIdentifier
  {
    KeyOf(c.x, c.y, c.res)
  }

  /**
   * The chunks of a subtree in the order `UpdateChunks_recurse` meets them:
   * depth first, bl, br, tl, tr, each quadrant with half the side and its
   * offsets added as `size_t`.
   */
  function Cells(t: LodNode, x: SizeT, y: SizeT, res: SizeT): seq<Cell>
    decreases t, 1
  {
    match t
    case Nil => []
    case Node(_, _, tl, _) => if tl.Nil? then [Cell(x, y, res, t)] else QuadrantCells(t, x, y, res)
  }

  /** The chunks of a node's four quadrants in turn. */
  function QuadrantCells(t: LodNode, x: SizeT, y: SizeT, res: SizeT): seq<Cell>
    requires t.Node?
    decreases t, 0
  {
    var h := res / 2;
    var cx, cy := ToSize(x + h), ToSize(y + h);
    Cells(t.bl, x, y, h) + Cells(t.br, cx, y, h) + Cells(t.tl, x, cy, h) + Cells(t.tr, cx, cy, h)
  }

  /** One cell per chunk. */
  lemma {:induction false} CellsCount(t: LodNode, x: SizeT, y: SizeT, res: SizeT)
    ensures |Cells(t, x, y, res)| == LeafCount(t)
  {
    match t
    case Nil =>
    case Node(bl, br, tl, tr) =>
      if tl.Node? {
        var h := res / 2;
        var cx, cy := ToSize(x + h), ToSize(y + h);
        CellsCount(bl, x, y, h);
        CellsCount(br, cx, y, h);
        CellsCount(tl, x, cy, h);
        CellsCount(tr, cx, cy, h);
      }
  }

  /** Every cell lies in the square of side `res` at (x, y). */
  ghost predicate Within(cells: seq<Cell>, x: int, y: int, res: int)
  {
    forall c :: c in cells ==> x <= c.x < x + res && y <= c.y < y + res
  }

  /** No two cells share an offset. */
  ghost predicate Apart(cells: seq<Cell>)
  {
    forall i, j :: 0 <= i < j < |cells| ==> cells[i].x != cells[j].x || cells[i].y != cells[j].y
  }

  lemma ApartAppend(a: seq<Cell>, b: seq<Cell>)
    requires Apart(a) && Apart(b)
    requires forall c, d :: c in a && d in b ==> c.x != d.x || c.y != d.y
    ensures Apart(a + b)
  {
    forall i, j | 0 <= i < j < |a + b| ensures (a + b)[i].x != (a + b)[j].x || (a + b)[i].y != (a + b)[j].y {
      if j < |a| {
        assert (a + b)[i] == a[i] && (a + b)[j] == a[j];
      } else if i >= |a| {
        assert (a + b)[i] == b[i - |a|] && (a + b)[j] == b[j - |a|];
      } else {
        assert (a + b)[i] == a[i] && a[i] in a && (a + b)[j] == b[j - |a|] && b[j - |a|] in b;
      }
    }
  }

  /**
   * Four quadrants, each apart within itself and lying in its quarter of a
   * square of side 2h, lie in the square and are apart together.
   */
  lemma QuadrantsApart(c1: seq<Cell>, c2: seq<Cell>, c3: seq<Cell>, c4: seq<Cell>, x: int, y: int, h: int)
    requires Apart(c1) && Apart(c2) && Apart(c3) && Apart(c4)
    requires Within(c1, x, y, h) && Within(c2, x + h, y, h) && Within(c3, x, y + h, h) && Within(c4, x + h, y + h, h)
    ensures Within(c1 + c2 + c3 + c4, x, y, 2 * h) && Apart(c1 + c2 + c3 + c4)
  {
    ApartAppend(c1, c2);
    ApartAppend(c1 + c2, c3);
    ApartAppend(c1 + c2 + c3, c4);
  }

  /**
   * The cells of a halvable subtree inside the root square lie in its square
   * and are apart: inside the root square the `size_t` offset sums do not
   * wrap, and the quadrants do not overlap.
   */
  lemma {:induction false} CellsApart(t: LodNode, x: SizeT, y: SizeT, res: SizeT, treeRes: SizeT)
    requires Inside(x, y, res, treeRes) && Halvable(t, res)
    ensures Within(Cells(t, x, y, res), x, y, res) && Apart(Cells(t, x, y, res))
  {
    match t
    case Nil =>
    case Node(bl, br, tl, tr) =>
      if tl.Node? {
        var h := res / 2;
        assert ToSize(x + h) == x + h && ToSize(y + h) == y + h;
        CellsApart(bl, x, y, h, treeRes);
        CellsApart(br, x + h, y, h, treeRes);
        CellsApart(tl, x, y + h, h, treeRes);
        CellsApart(tr, x + h, y + h, h, treeRes);
        QuadrantsApart(Cells(bl, x, y, h), Cells(br, x + h, y, h), Cells(tl, x, y + h, h), Cells(tr, x + h, y + h, h), x, y, h);
      }
  }

  /** The keys of the cells, in order. */
  function Keys(cells: seq<Cell>): (ks: seq<ChunkIdentifier>)
    ensures |ks| == |cells|
  {
    if cells == [] then [] else [Key(cells[0])] + Keys(cells[1..])
  }

  /** The i-th key is the key of the i-th cell. */
  lemma {:induction false} KeysAt(cells: seq<Cell>)
    ensures forall i :: 0 <= i < |cells| ==> Keys(cells)[i] == Key(cells[i])
  {
    if cells != [] {
      KeysAt(cells[1..]);
      assert forall i :: 1 <= i < |cells| ==> Keys(cells)[i] == Keys(cells[1..])[i - 1];
    }
  }

  /** Cells apart have distinct keys: narrowing the offsets to `long` loses nothing. */
  lemma ApartKeysDistinct(cells: seq<Cell>)
    requires Apart(cells)
    ensures Distinct(Keys(cells))
  {
    var ks := Keys(cells);
    KeysAt(cells);
    forall i, j | 0 <= i < j < |ks| ensures ks[i] != ks[j] {
      assert LongToSize(ks[i].x) == cells[i].x && LongToSize(ks[i].y) == cells[i].y;
      assert LongToSize(ks[j].x) == cells[j].x && LongToSize(ks[j].y) == cells[j].y;
    }
  }

  /** The chunks built at the cells, in order, and the index offset after them. */
  datatype Built = Built(offset: nat, chunks: seq<Chunk>)

  /**
   * The chunks `UpdateChunks_recurse` builds at the cells, in order, from
   * index offset `offset`: each is built at the current offset, and the
   * `unsigned int` offset then advances by its vertex count.
   */
  function BuildChunks(make: ChunkRequest -> Chunk, treeRes: SizeT, cells: seq<Cell>, offset: nat): (b: Built)
    ensures |b.chunks| == |cells|
  {
    if cells == [] then Built(offset, [])
    else
      var c := cells[0];
      var chunk := make(ChunkRequest(c.x, c.y, offset, treeRes, c.res, c.node));
      var rest := BuildChunks(make, treeRes, cells[1..], (offset + chunk.vertexCount) % UINT_RANGE);
      Built(rest.offset, [chunk] + rest.chunks)
  }

  /** Building at `a + b` is building at `a`, then at `b` from the offset `a` left. */
  lemma {:induction false} BuildAppend(make: ChunkRequest -> Chunk, treeRes: SizeT, a: seq<Cell>, b: seq<Cell>, offset: nat)
    ensures var ba := BuildChunks(make, treeRes, a, offset);
      var bb := BuildChunks(make, treeRes, b, ba.offset);
      BuildChunks(make, treeRes, a + b, offset) == Built(bb.offset, ba.chunks + bb.chunks)
  {
    var ba := BuildChunks(make, treeRes, a, offset);
    var bb := BuildChunks(make, treeRes, b, ba.offset);
    if a == [] {
      assert a + b == b;
      assert ba.chunks + bb.chunks == bb.chunks;
    } else {
      var c := a[0];
      var chunk := make(ChunkRequest(c.x, c.y, offset, treeRes, c.res, c.node));
      var offset' := (offset + chunk.vertexCount) % UINT_RANGE;
      var ra := BuildChunks(make, treeRes, a[1..], offset');
      assert (a + b)[0] == c;
      assert (a + b)[1..] == a[1..] + b;
      BuildAppend(make, treeRes, a[1..], b, offset');
      assert [chunk] + (ra.chunks + bb.chunks) == ([chunk] + ra.chunks) + bb.chunks;
    }
  }

  /** The vertex counts of the chunks, added up. */
  function VertexTotal(chunks: seq<Chunk>): nat
  {
    if chunks == [] then 0 else chunks[0].vertexCount + VertexTotal(chunks[1..])
  }

  /** The index offset advances by the chunks' total vertex count, modulo 2^32. */
  lemma {:induction false} BuildOffset(make: ChunkRequest -> Chunk, treeRes: SizeT, cells: seq<Cell>, offset: nat)
    requires offset < UINT_RANGE
    ensures var b := BuildChunks(make, treeRes, cells, offset);
      b.offset == (offset + VertexTotal(b.chunks)) % UINT_RANGE
  {
    if cells != [] {
      var c := cells[0];
      var chunk := make(ChunkRequest(c.x, c.y, offset, treeRes, c.res, c.node));
      var rest := BuildChunks(make, treeRes, cells[1..], (offset + chunk.vertexCount) % UINT_RANGE);
      BuildOffset(make, treeRes, cells[1..], (offset + chunk.vertexCount) % UINT_RANGE);
      assert ([chunk] + rest.chunks)[1..] == rest.chunks;
      WrapAddAssoc(offset + chunk.vertexCount, VertexTotal(rest.chunks));
    }
  }

  /** The cache after `Put(ks[i], vs[i])` for each i in turn. */
  function PutAll(s: CacheState<ChunkIdentifier, Chunk>, ks: seq<ChunkIdentifier>, vs: seq<Chunk>): (r: CacheState<ChunkIdentifier, Chunk>)
    requires |ks| == |vs|
    ensures r.capacity == s.capacity
    decreases |ks|
  {
    if ks == [] then s else PutAll(PutState(s, ks[0], vs[0]), ks[1..], vs[1..])
  }

  /** Putting `a + b` is putting `a`, then `b`. */
  lemma {:induction false} PutAllAppend(s: CacheState<ChunkIdentifier, Chunk>, a: seq<ChunkIdentifier>, b: seq<ChunkIdentifier>,
                                        c: seq<Chunk>, d: seq<Chunk>)
    requires |a| == |c| && |b| == |d|
    ensures PutAll(s, a + b, c + d) == PutAll(PutAll(s, a, c), b, d)
    decreases |a|
  {
    if a == [] {
      assert a + b == b && c + d == d;
    } else {
      assert (a + b)[0] == a[0] && (c + d)[0] == c[0];
      assert (a + b)[1..] == a[1..] + b && (c + d)[1..] == c[1..] + d;
      PutAllAppend(PutState(s, a[0], c[0]), a[1..], b, c[1..], d);
    }
  }

  /** The map after writing `vs[i]` under `ks[i]` for each i in turn; a later write to the same key wins. */
  function Assign<K, V>(m: map<K, V>, ks: seq<K>, vs: seq<V>): map<K, V>
    requires |ks| == |vs|
    decreases |ks|
  {
    if ks == [] then m else Assign(m[ks[0] := vs[0]], ks[1..], vs[1..])
  }

  /** With distinct keys, each key ends up holding the value written with it, and other keys keep theirs. */
  lemma {:induction false} AssignDistinct<K, V>(m: map<K, V>, ks: seq<K>, vs: seq<V>)
    requires |ks| == |vs| && Distinct(ks)
    ensures forall i :: 0 <= i < |ks| ==> ks[i] in Assign(m, ks, vs) && Assign(m, ks, vs)[ks[i]] == vs[i]
    ensures forall k :: k !in ks && k in m ==> k in Assign(m, ks, vs) && Assign(m, ks, vs)[k] == m[k]
    decreases |ks|
  {
    if ks != [] {
      var rest := ks[1..];
      DistinctParts([ks[0]], rest);
      assert [ks[0]] + rest == ks;
      AssignDistinct(m[ks[0] := vs[0]], rest, vs[1..]);
      forall i | 0 <= i < |ks| ensures ks[i] in Assign(m, ks, vs) && Assign(m, ks, vs)[ks[i]] == vs[i] {
        if i > 0 {
          assert ks[i] == rest[i - 1];
        }
      }
    }
  }

  /** Each value is written under its key, in order. */
  lemma {:induction false} PutAllValues(s: CacheState<ChunkIdentifier, Chunk>, ks: seq<ChunkIdentifier>, vs: seq<Chunk>)
    requires |ks| == |vs|
    ensures PutAll(s, ks, vs).values == Assign(s.values, ks, vs)
    decreases |ks|
  {
    if ks != [] {
      PutAllValues(PutState(s, ks[0], vs[0]), ks[1..], vs[1..]);
    }
  }

  /**
   * Putting the first of distinct keys, none of them in the front part
   * `done`, with room for them and `done`, keeps the cache coherent and puts
   * the key in front of `done`; the other keys are then outside the longer
   * front part.
   */
  lemma PutFirstInFront(s: CacheState<ChunkIdentifier, Chunk>, ks: seq<ChunkIdentifier>, v: Chunk, done: seq<ChunkIdentifier>)
    requires ks != [] && Coherent(s) && IsPrefix(done, s.keys)
    requires Distinct(ks) && (forall x :: x in done ==> x !in ks)
    requires |done| + |ks| < s.capacity
    ensures var t := PutState(s, ks[0], v);
      && Coherent(t) && IsPrefix([ks[0]] + done, t.keys)
      && Distinct(ks[1..]) && (forall x :: x in [ks[0]] + done ==> x !in ks[1..])
  {
    var k := ks[0];
    assert ks == [k] + ks[1..];
    DistinctParts([k], ks[1..]);
    PutKeepsCoherent(s, k, v);
    MoveToFrontFacts(s.keys, k);
    PrefixAfterMoveToFront(done, s.keys, k, Evicts(s, k));
  }

  /**
   * When the keys are distinct, none is in the front part `done` of the
   * cache, and the capacity leaves room for all of them, putting them puts
   * them, last first, in front of `done`.
   */
  lemma {:induction false} PutAllInFront(s: CacheState<ChunkIdentifier, Chunk>, ks: seq<ChunkIdentifier>, vs: seq<Chunk>,
                                         done: seq<ChunkIdentifier>)
    requires |ks| == |vs| && Coherent(s) && IsPrefix(done, s.keys)
    requires Distinct(ks) && (forall k :: k in done ==> k !in ks)
    requires |done| + |ks| < s.capacity
    ensures Coherent(PutAll(s, ks, vs)) && IsPrefix(Reverse(ks) + done, PutAll(s, ks, vs).keys)
    decreases |ks|
  {
    if ks == [] {
      assert Reverse(ks) + done == done;
    } else {
      PutFirstInFront(s, ks, vs[0], done);
      PutAllInFront(PutState(s, ks[0], vs[0]), ks[1..], vs[1..], [ks[0]] + done);
      ReverseInFront(ks, done);
    }
  }

  lemma KeysAppend(a: seq<Cell>, b: seq<Cell>)
    ensures Keys(a + b) == Keys(a) + Keys(b)
  {
    KeysAt(a + b);
    KeysAt(a);
    KeysAt(b);
    assert forall i :: 0 <= i < |a + b| ==> Keys(a + b)[i] == (Keys(a) + Keys(b))[i];
  }

  /** The cache and the index offset, as the traversal carries them from chunk to chunk. */
  datatype Progress = Progress(cache: CacheState<ChunkIdentifier, Chunk>, offset: nat)

  /**
   * Building and putting the chunks `cells` in turn, from `p`: the chunks are
   * built from `p`'s index offset on and put into `p`'s cache in order.
   */
  function Run(make: ChunkRequest -> Chunk, treeRes: SizeT, p: Progress, cells: seq<Cell>): (r: Progress)
    ensures r.cache.capacity == p.cache.capacity
  {
    var b := BuildChunks(make, treeRes, cells, p.offset);
    Progress(PutAll(p.cache, Keys(cells), b.chunks), b.offset)
  }

  /** Running `a + b` is running `a`, then `b`. */
  lemma RunAppend(make: ChunkRequest -> Chunk, treeRes: SizeT, p: Progress, a: seq<Cell>, b: seq<Cell>)
    ensures Run(make, treeRes, Run(make, treeRes, p, a), b) == Run(make, treeRes, p, a + b)
  {
    var ba := BuildChunks(make, treeRes, a, p.offset);
    BuildAppend(make, treeRes, a, b, p.offset);
    KeysAppend(a, b);
    PutAllAppend(p.cache, Keys(a), Keys(b), ba.chunks, BuildChunks(make, treeRes, b, ba.offset).chunks);
  }

  /**
   * The chunk branch of `UpdateChunks_recurse`, for a tree of side
   * `treeRes`: the chunk of the cell is built at the current index offset
   * and put under its key without a lookup, and the `unsigned int` offset
   * advances by its vertex count.
   */
  function ChunkStep(make: ChunkRequest -> Chunk, treeRes: SizeT, p: Progress, c: Cell): (r: Progress)
    ensures r.cache.capacity == p.cache.capacity
  {
    var chunk := make(ChunkRequest(c.x, c.y, p.offset, treeRes, c.res, c.node));
    Progress(PutState(p.cache, Key(c), chunk), (p.offset + chunk.vertexCount) % UINT_RANGE)
  }

  /** What the traversal does at one chunk: tree side, progress so far, and the chunk's cell. */
  type Step = (SizeT, Progress, Cell) -> Progress

  /** `step` is `ChunkStep` with the chunk builder `make`. */
  ghost predicate IsChunkStep(step: Step, make: ChunkRequest -> Chunk)
  {
    forall treeRes, p, c {:trigger ChunkStep(make, treeRes, p, c)} :: step(treeRes, p, c) == ChunkStep(make, treeRes, p, c)
  }

  /**
   * `UpdateChunks_recurse` on a subtree, node by node: a node whose `tl`
   * child is null takes a chunk step at its square; any other node visits
   * bl, br, tl and tr in turn, each with half the side at offsets added as
   * `size_t`.
   */
  function Visit(step: Step, treeRes: SizeT, t: LodNode, x: SizeT, y: SizeT, res: SizeT, p: Progress): Progress
    decreases t, 1
  {
    match t
    case Nil => p
    case Node(_, _, tl, _) => if tl.Nil? then step(treeRes, p, Cell(x, y, res, t)) else VisitQuadrants(step, treeRes, t, x, y, res, p)
  }

  /** A node's four quadrants visited in turn. */
  function VisitQuadrants(step: Step, treeRes: SizeT, t: LodNode, x: SizeT, y: SizeT, res: SizeT, p: Progress): Progress
    requires t.Node?
    decreases t, 0
  {
    var h := res / 2;
    var cx, cy := ToSize(x + h), ToSize(y + h);
    Visit(step, treeRes, t.tr, cx, cy, h, Visit(step, treeRes, t.tl, x, cy, h, Visit(step, treeRes, t.br, cx, y, h, Visit(step, treeRes, t.bl, x, y, h, p))))
  }

  /** Chunk steps at the cells in turn. */
  function Steps(step: Step, treeRes: SizeT, p: Progress, cells: seq<Cell>): Progress
    decreases |cells|
  {
    if cells == [] then p else Steps(step, treeRes, step(treeRes, p, cells[0]), cells[1..])
  }

  /** Steps at `a + b` are the steps at `a`, then at `b`. */
  lemma {:induction false} StepsAppend(step: Step, treeRes: SizeT, p: Progress, a: seq<Cell>, b: seq<Cell>)
    ensures Steps(step, treeRes, Steps(step, treeRes, p, a), b) == Steps(step, treeRes, p, a + b)
    decreases |a|
  {
    if a == [] {
      assert a + b == b;
    } else {
      assert (a + b)[0] == a[0] && (a + b)[1..] == a[1..] + b;
      StepsAppend(step, treeRes, step(treeRes, p, a[0]), a[1..], b);
    }
  }

  /** Visiting a subtree is taking the steps at its cells in traversal order, whatever the step. */
  lemma {:induction false} VisitIsSteps(step: Step, treeRes: SizeT, t: LodNode, x: SizeT, y: SizeT, res: SizeT, p: Progress)
    ensures Visit(step, treeRes, t, x, y, res, p) == Steps(step, treeRes, p, Cells(t, x, y, res))
  {
    match t
    case Nil =>
    case Node(bl, br, tl, tr) =>
      if tl.Nil? {
        assert [Cell(x, y, res, t)][1..] == [];
      } else {
        var h := res / 2;
        var cx, cy := ToSize(x + h), ToSize(y + h);
        var c1, c2, c3, c4 := Cells(bl, x, y, h), Cells(br, cx, y, h), Cells(tl, x, cy, h), Cells(tr, cx, cy, h);
        var p1 := Visit(step, treeRes, bl, x, y, h, p);
        var p2 := Visit(step, treeRes, br, cx, y, h, p1);
        var p3 := Visit(step, treeRes, tl, x, cy, h, p2);
        VisitIsSteps(step, treeRes, bl, x, y, h, p);
        VisitIsSteps(step, treeRes, br, cx, y, h, p1);
        VisitIsSteps(step, treeRes, tl, x, cy, h, p2);
        VisitIsSteps(step, treeRes, tr, cx, cy, h, p3);
        StepsAppend(step, treeRes, p, c1, c2);
        StepsAppend(step, treeRes, p, c1 + c2, c3);
        StepsAppend(step, treeRes, p, c1 + c2 + c3, c4);
      }
  }

  /** Running one chunk is one chunk step. */
  lemma RunOne(make: ChunkRequest -> Chunk, treeRes: SizeT, p: Progress, cell: Cell)
    ensures Run(make, treeRes, p, [cell]) == ChunkStep(make, treeRes, p, cell)
  {
    var chunk := make(ChunkRequest(cell.x, cell.y, p.offset, treeRes, cell.res, cell.node));
    var o := (p.offset + chunk.vertexCount) % UINT_RANGE;
    assert [cell][1..] == [];
    assert BuildChunks(make, treeRes, [cell], p.offset) == Built(o, [chunk]);
    assert Keys([cell]) == [Key(cell)];
    assert [Key(cell)][1..] == [] && [chunk][1..] == [];
    assert PutAll(p.cache, [Key(cell)], [chunk]) == PutAll(PutState(p.cache, Key(cell), chunk), [], []);
  }

  /** Chunk steps at the cells build and put the chunks as `Run` does. */
  lemma {:induction false} StepsIsRun(step: Step, make: ChunkRequest -> Chunk, treeRes: SizeT, p: Progress, cells: seq<Cell>)
    requires IsChunkStep(step, make)
    ensures Steps(step, treeRes, p, cells) == Run(make, treeRes, p, cells)
    decreases |cells|
  {
    if cells == [] {
      assert Run(make, treeRes, p, []) == p;
    } else {
      var c := cells[0];
      RunOne(make, treeRes, p, c);
      StepsIsRun(step, make, treeRes, step(treeRes, p, c), cells[1..]);
      assert [c] + cells[1..] == cells;
      RunAppend(make, treeRes, p, [c], cells[1..]);
    }
  }

  class ChunkGenerator {
    /**
     * `chunk_data_`, a cache held by value: its state, which
     * `LruCache.PutDiscard` and `LruCache.Reserve` change as `PutState` and
     * a larger capacity.
     */
    var chunkData: CacheState<ChunkIdentifier, Chunk>
    /** `Chunk::chunk_create` with the generator's height map and terrain offset bound in. */
    const makeChunk: ChunkRequest -> Chunk
    /** `ChunkStep` with `makeChunk`, as a value the traversal takes. */
    ghost const step: Step
    /** `chunk_count_`: the number of chunks the last traversal found. */
    var chunkCount: SizeT
    /** `index_offset`, an `unsigned int`: the first vertex index of the next chunk. */
    var indexOffset: nat

    ghost predicate Valid()
      reads this
    {
      Coherent(chunkData) && indexOffset < UINT_RANGE && IsChunkStep(step, makeChunk)
    }

    /** The cache and the index offset together. */
    function Current(): Progress
      reads this
    {
      Progress(chunkData, indexOffset)
    }

    /**
     * The constructor makes a cache of capacity 256; it leaves the two
     * counters uninitialised, so they hold some `size_t` and some
     * `unsigned int` until `UpdateChunks` sets them.
     */
    constructor (makeChunk: ChunkRequest -> Chunk)
      ensures Valid()
      ensures chunkData == CacheState([], map[], 256)
      ensures this.makeChunk == makeChunk
    {
      chunkData := CacheState([], map[], 256);
      this.makeChunk := makeChunk;
      step := (treeRes: SizeT, p: Progress, c: Cell) => ChunkStep(makeChunk, treeRes, p, c);
      var offset: nat :| offset < UINT_RANGE;
      indexOffset := offset;
    }

    /**
     * `UpdateChunks`: the index offset restarts at 0, the cache grows to at
     * least one more than the number of nodes, and the chunks of the whole
     * tree, of side `tree_res`, are built and put in traversal order; the
     * chunk count is their number.
     */
    method UpdateChunks(nodes: LodNode, treeRes: SizeT)
      requires Valid() && Walkable(nodes)
      modifies this
      ensures Valid()
      ensures var s := old(chunkData);
        && Current() == Run(makeChunk, treeRes, Progress(s.(capacity := Reserved(s.capacity, nodes)), 0), Cells(nodes, 0, 0, treeRes))
        && chunkCount == ToSize(LeafCount(nodes))
    {
      indexOffset := 0;
      chunkData := chunkData.(capacity := Reserved(chunkData.capacity, nodes));
      VisitIsSteps(step, treeRes, nodes, 0, 0, treeRes, Current());
      StepsIsRun(step, makeChunk, treeRes, Current(), Cells(nodes, 0, 0, treeRes));
      chunkCount := UpdateRecurse(0, 0, treeRes, treeRes, nodes);
    }

    /** The chunk branch of `UpdateChunks_recurse`: a chunk step at the square of side `res` at (x, y). */
    method PutChunk(x: SizeT, y: SizeT, res: SizeT, treeRes: SizeT, node: LodNode)
      requires Valid()
      modifies this
      ensures Valid()
      ensures Current() == ChunkStep(makeChunk, treeRes, old(Current()), Cell(x, y, res, node))
      ensures chunkCount == old(chunkCount)
    {
      var id := KeyOf(x, y, res);
      var chunk := makeChunk(ChunkRequest(x, y, indexOffset, treeRes, res, node));
      PutKeepsCoherent(chunkData, id, chunk);
      chunkData := PutState(chunkData, id, chunk);
      indexOffset := (indexOffset + chunk.vertexCount) % UINT_RANGE;
    }

    /**
     * `UpdateChunks_recurse`: a node whose `tl` child is null is a chunk of
     * side `res` at (x, y); otherwise the four quadrants are visited with
     * half the side at offsets added as `size_t`, and their chunk counts
     * added as `size_t`.
     */
    method UpdateRecurse(x: SizeT, y: SizeT, res: SizeT, treeRes: SizeT, node: LodNode) returns (count: SizeT)
      requires Valid() && Walkable(node)
      modifies this
      ensures Valid()
      ensures Current() == Visit(step, treeRes, node, x, y, res, old(Current()))
      ensures count == ToSize(LeafCount(node))
      ensures chunkCount == old(chunkCount)
      decreases node
    {
      if node.tl.Nil? {
        PutChunk(x, y, res, treeRes, node);
        count := 1;
      } else {
        var half := res / 2;
        var cx, cy := ToSize(x + half), ToSize(y + half);
        var n1 := UpdateRecurse(x, y, half, treeRes, node.bl);
        var n2 := UpdateRecurse(cx, y, half, treeRes, node.br);
        var n3 := UpdateRecurse(x, cy, half, treeRes, node.tl);
        var n4 := UpdateRecurse(cx, cy, half, treeRes, node.tr);
        count := ToSize(ToSize(ToSize(n1 as int + n2) + n3) + n4);
        CountNode(node, n1, n2, n3, n4);
      }
    }
  }

  /** A node's chunk count, four quadrant counts added as `size_t`, is its number of chunks modulo 2^64. */
  lemma CountNode(node: LodNode, n1: SizeT, n2: SizeT, n3: SizeT, n4: SizeT)
    requires node.Node? && node.tl.Node?
    requires n1 == ToSize(LeafCount(node.bl)) && n2 == ToSize(LeafCount(node.br))
    requires n3 == ToSize(LeafCount(node.tl)) && n4 == ToSize(LeafCount(node.tr))
    ensures ToSize(ToSize(ToSize(n1 as int + n2) + n3) + n4) == ToSize(LeafCount(node))
  {
    CountsAdd(n1, n2, n3, n4, LeafCount(node.bl), LeafCount(node.br), LeafCount(node.tl), LeafCount(node.tr), LeafCount(node));
  }

  /** Four `size_t` additions in a row wrap like one addition of the sum. */
  lemma CountsAdd(n1: SizeT, n2: SizeT, n3: SizeT, n4: SizeT, l1: nat, l2: nat, l3: nat, l4: nat, total: nat)
    requires n1 == ToSize(l1) && n2 == ToSize(l2) && n3 == ToSize(l3) && n4 == ToSize(l4)
    requires total == l1 + l2 + l3 + l4
    ensures ToSize(ToSize(ToSize(n1 as int + n2) + n3) + n4) == ToSize(total)
  {
    SizeAddMod(l1, l2);
    SizeAddMod(l1 + l2, l3);
    SizeAddMod(l1 + l2 + l3, l4);
  }

  /** The cache capacity after `UpdateChunks` reserves room for one more than the nodes of `t`. */
  function Reserved(capacity: nat, t: LodNode): (c: nat)
    ensures c >= capacity && c > NodeCount(t)
    ensures c == capacity || c == NodeCount(t) + 1
  {
    if capacity < NodeCount(t) + 1 then NodeCount(t) + 1 else capacity
  }

  /**
   * Running distinct keys from index offset 0 on a coherent cache with room
   * for all of them: the cache stays coherent, the keys are its most recent
   * entries, last built first, each holds the chunk built for it, and the
   * index offset is the chunks' total vertex count modulo 2^32.
   */
  lemma RunPutsInFront(make: ChunkRequest -> Chunk, treeRes: SizeT, s: CacheState<ChunkIdentifier, Chunk>, cells: seq<Cell>)
    requires Coherent(s) && Distinct(Keys(cells)) && |cells| < s.capacity
    ensures var keys := Keys(cells);
      var chunks := BuildChunks(make, treeRes, cells, 0).chunks;
      var r := Run(make, treeRes, Progress(s, 0), cells);
      && Coherent(r.cache) && IsPrefix(Reverse(keys), r.cache.keys)
      && (forall i :: 0 <= i < |keys| ==> keys[i] in r.cache.values && r.cache.values[keys[i]] == chunks[i])
      && r.offset == VertexTotal(chunks) % UINT_RANGE
  {
    var keys := Keys(cells);
    var b := BuildChunks(make, treeRes, cells, 0);
    BuildOffset(make, treeRes, cells, 0);
    PutAllValues(s, keys, b.chunks);
    PutAllInFront(s, keys, b.chunks, []);
    assert Reverse(keys) + [] == Reverse(keys);
    AssignDistinct(s.values, keys, b.chunks);
  }

  /**
   * What `UpdateChunks` achieves on a halvable tree: one chunk per leaf;
   * the chunk keys are distinct and are the most recent cache entries, last
   * built first, so none was evicted; each holds the chunk built for it;
   * and the index offset is the chunks' total vertex count modulo 2^32.
   */
  lemma TraversalKeepsChunksInFront(make: ChunkRequest -> Chunk, t: LodNode, treeRes: SizeT, s: CacheState<ChunkIdentifier, Chunk>)
    requires Walkable(t) && Halvable(t, treeRes) && Coherent(s)
    ensures var cells := Cells(t, 0, 0, treeRes);
      var keys := Keys(cells);
      var chunks := BuildChunks(make, treeRes, cells, 0).chunks;
      var r := Run(make, treeRes, Progress(s.(capacity := Reserved(s.capacity, t)), 0), cells);
      && |cells| == |Leaves(t, 0, 0, treeRes)| == LeafCount(t) && Distinct(keys)
      && Coherent(r.cache) && IsPrefix(Reverse(keys), r.cache.keys)
      && (forall i :: 0 <= i < |keys| ==> keys[i] in r.cache.values && r.cache.values[keys[i]] == chunks[i])
      && r.offset == VertexTotal(chunks) % UINT_RANGE
  {
    var cells := Cells(t, 0, 0, treeRes);
    CellsCount(t, 0, 0, treeRes);
    LeafCountIsLeaves(t, 0, 0, treeRes);
    LeavesWithinNodeCount(t, 0, 0, treeRes);
    CellsApart(t, 0, 0, treeRes, treeRes);
    ApartKeysDistinct(cells);
    RunPutsInFront(make, treeRes, s.(capacity := Reserved(s.capacity, t)), cells);
  }
}
