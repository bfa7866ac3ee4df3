/** Facts about multiplication, division and remainder on naturals that the solver does not find alone. */
module Arith {
  import opened Ints

  /** Multiplication by a natural number is monotonic. */
  lemma {:induction false} MulLe(a: nat, b: nat, c: nat)
    requires a <= b
    ensures a * c <= b * c
  {
    if c > 0 {
      MulLe(a, b, c - 1);
      assert a * c == a * (c - 1) + a && b * c == b * (c - 1) + b;
    }
  }

  /** Row q + 1 of a layout of width d starts d slots after row q. */
  lemma NextRow(d: nat, q: nat)
    ensures (q + 1) * d == q * d + d
  {
  }

  /** Quotient and remainder are the only q, r with a == q d + r and r < d. */
  lemma DivModUnique(a: nat, d: nat, q: nat, r: nat)
    requires a == q * d + r && r < d
    ensures a / d == q && a % d == r
  {
    var q' := a / d;
    if q' < q {
      NextRow(d, q');
      MulLe(q' + 1, q, d);
      assert false;
    } else if q' > q {
      NextRow(d, q);
      MulLe(q + 1, q', d);
      assert false;
    }
  }

  /** Doubling one factor doubles the product. */
  lemma MulDouble(a: nat, p: nat)
    ensures a * (2 * p) == 2 * (a * p) == (a * 2) * p
  {
  }

  /** A quotient by a positive divisor is at most the dividend. */
  lemma DivLe(a: nat, d: nat)
    requires d > 0
    ensures a / d <= a
  {
    MulLe(1, d, a / d);
  }

  /** Rounding down to a multiple of d: a multiple, at most c, and less than d below it. */
  lemma RoundDown(c: nat, d: nat)
    requires d > 0
    ensures (c - c % d) % d == 0 && c - c % d <= c < c - c % d + d
  {
    DivModUnique(c - c % d, d, c / d, 0);
  }

  /** A product of two `size_t` values below 2^32 does not wrap. */
  lemma SmallProduct(a: nat, b: nat)
    requires a < 0x1_0000_0000 && b < 0x1_0000_0000
    ensures a * b < SIZE_RANGE && ToSize(a * b) == a * b
  {
    MulLe(a, 0xFFFF_FFFF, b);
    MulLe(b, 0xFFFF_FFFF, 0xFFFF_FFFF);
  }

  /** Reducing modulo 2^64 before or after a multiplication gives the same `size_t`. */
  lemma MulWrap(a: nat, p: nat)
    ensures ToSize(ToSize(a) * p) == ToSize(a * p)
  {
    var q := a / SIZE_RANGE;
    assert a * p == ToSize(a) * p + (q * p) * SIZE_RANGE;
    ModAddMultiple(ToSize(a) * p, q * p);
  }

  /** Adding a multiple of 2^64 does not change a `size_t`. */
  lemma {:induction false} ModAddMultiple(n: nat, k: nat)
    ensures (n + k * SIZE_RANGE) % SIZE_RANGE == n % SIZE_RANGE
  {
    if k > 0 {
      ModAddMultiple(n, k - 1);
      assert n + k * SIZE_RANGE == (n + (k - 1) * SIZE_RANGE) + SIZE_RANGE;
    }
  }
}
