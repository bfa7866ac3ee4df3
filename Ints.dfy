/** Fixed-width unsigned integers of the C++ source, made explicit. */
module Ints {
  /** 2^64: the number of values of `size_t`. */
  const SIZE_RANGE: nat := 0x1_0000_0000_0000_0000
  /** `SIZE_MAX`, the largest `size_t`. */
  const SIZE_MAX: nat := SIZE_RANGE - 1
  /** 2^32: the number of values of `unsigned int`. */
  const UINT_RANGE: nat := 0x1_0000_0000

  type SizeT = n: nat | n < SIZE_RANGE

  /** The values of a 64-bit `long`. */
  type Long = n: int | -0x8000_0000_0000_0000 <= n < 0x8000_0000_0000_0000

  /** An integer converted to `size_t`: reduced modulo 2^64, as C++ does. */
  function ToSize(n: int): (r: SizeT)
    ensures 0 <= n < SIZE_RANGE ==> r == n
    ensures -(SIZE_RANGE as int) <= n < 0 ==> r == n + SIZE_RANGE
  {
    n % SIZE_RANGE
  }

  /** A `size_t` converted to `long`: values from 2^63 up wrap around to negatives. */
  function ToLong(n: SizeT): (r: Long)
    ensures n < 0x8000_0000_0000_0000 ==> r == n
    ensures r % SIZE_RANGE == n
  {
    if n < 0x8000_0000_0000_0000 then n else n - SIZE_RANGE
  }

  /** A `long` converted back to `size_t`: the inverse of `ToLong`. */
  function LongToSize(n: Long): (r: SizeT)
    ensures ToLong(r) == n
  {
    if n < 0 then n + SIZE_RANGE else n
  }

  /** Wrapping addition on `size_t` may be reduced after every step or once at the end. */
  lemma SizeAddWrap(a: int, b: int)
    ensures ToSize(ToSize(a) + b) == ToSize(a + b)
  {
  }

  /** Wrapping addition on `size_t` of two reduced values is the reduced sum. */
  lemma SizeAddMod(a: int, b: int)
    ensures ToSize(ToSize(a) + ToSize(b)) == ToSize(a + b)
  {
    SizeAddWrap(a, ToSize(b));
    SizeAddWrap(b, a);
  }

  /** Wrapping addition on `unsigned int` may be reduced after every step or once at the end. */
  lemma WrapAddAssoc(a: int, b: int)
    ensures (a % UINT_RANGE + b) % UINT_RANGE == (a + b) % UINT_RANGE
  {
  }
}
