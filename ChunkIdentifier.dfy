/**
 * The cache key of a chunk (include/terrain/ChunkIdentifier.hpp): the
 * chunk's offsets and side length, compared field by field and hashed by
 * `((x << 24) | y) * size` in 64-bit arithmetic.
 */
module ChunkIdentifiers {
  import opened Ints

  datatype ChunkIdentifier = ChunkIdentifier(x: Long, y: Long, size: SizeT)

  /** `operator==`: all three fields agree. */
  function Equals(a: ChunkIdentifier, b: ChunkIdentifier): (r: bool)
    ensures r <==> a == b
  {
    b.x == a.x && b.y == a.y && b.size == a.size
  }

  /** The two's-complement bits of a `long`: a negative n is the complement of -n - 1. */
  function Bits(n: Long): bv64
  {
    if n < 0 then !((-(n as int) - 1) as bv64) else n as bv64
  }

  /** `(x << 24) | y` on `long`: the shift drops the high bits of x, and a negative y sets every high bit. */
  function Combine(x: Long, y: Long): bv64
  {
    (Bits(x) << 24) | Bits(y)
  }

  /**
   * `std::hash<ChunkIdentifier>`: the combined offsets, read as `size_t`,
   * times the size, wrapping modulo 2^64.
   */
  function Hash(id: ChunkIdentifier): SizeT
  {
    var bits := Combine(id.x, id.y) as int;
    (bits * id.size) % SIZE_RANGE
  }

  /** Any chunk of size 0 hashes to 0, whatever its offsets. */
  lemma HashOfSizeZero(id: ChunkIdentifier)
    requires id.size == 0
    ensures Hash(id) == 0
  {
    var bits := Combine(id.x, id.y) as int;
    assert bits * id.size == 0;
  }

  /** `==` is an equivalence relation. */
  lemma EqualsIsEquivalence(a: ChunkIdentifier, b: ChunkIdentifier, c: ChunkIdentifier)
    ensures Equals(a, a)
    ensures Equals(a, b) ==> Equals(b, a)
    ensures Equals(a, b) && Equals(b, c) ==> Equals(a, c)
  {
  }

  /** Equal identifiers hash equally, as an unordered map requires. */
  lemma HashRespectsEquals(a: ChunkIdentifier, b: ChunkIdentifier)
    requires Equals(a, b)
    ensures Hash(a) == Hash(b)
  {
  }

  /**
   * With y = -1 every bit of `(x << 24) | y` is set, whatever x is: all
   * identifiers on that row of one size share a hash.
   */
  lemma HashIgnoresXOnRowMinusOne(x1: Long, x2: Long, size: SizeT)
    ensures Hash(ChunkIdentifier(x1, -1, size)) == Hash(ChunkIdentifier(x2, -1, size))
  {
    assert Bits(-1) == 0xFFFF_FFFF_FFFF_FFFF;
    assert Combine(x1, -1) == Combine(x2, -1);
  }

  /** A y of 2^24 or more overlaps the bits of x: (1, 0) and (0, 2^24) collide. */
  lemma HashOverlap(size: SizeT)
    ensures Hash(ChunkIdentifier(1, 0, size)) == Hash(ChunkIdentifier(0, 0x100_0000, size))
  {
    assert Bits(1) == 1 && Bits(0) == 0 && Bits(0x100_0000) == 0x100_0000;
    assert Combine(1, 0) == Combine(0, 0x100_0000);
  }
}
