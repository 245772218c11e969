/**
 * Fixed-width integer types of the encoder and the padding helper
 * `next_divisible_by_4`, which exists in two textually identical copies
 * (one per code generation); `NextDivisibleBy4AsWritten` models both.
 */
module Util {
  const SIZE_MODULUS: nat := 0x1_0000_0000_0000_0000
  const SIZE_MAX: nat := SIZE_MODULUS - 1
  const UINT32_MODULUS: nat := 0x1_0000_0000
  const UINT32_MAX: nat := UINT32_MODULUS - 1

  /** std::size_t */
  type SizeT = x: int | 0 <= x < SIZE_MODULUS
  /** std::uint32_t, and `unsigned int` on the supported platforms */
  type U32 = x: int | 0 <= x < UINT32_MODULUS
  /** One byte of an RGBA image */
  type Byte = x: int | 0 <= x < 256
  /** std::uint64_t: one DDS block word */
  type U64 = x: int | 0 <= x < SIZE_MODULUS

  /** Bitwise AND of a size_t with the unsigned int mask ~0b11U == 0xFFFFFFFC,
    * which is zero-extended to size_t: the upper 32 bits are cleared too. */
  function AndNarrowMask(x: SizeT): (r: SizeT)
  {
    x % UINT32_MODULUS / 4 * 4
  }

  /** next_divisible_by_4 exactly as written: (value + 3) wraps modulo 2^64, and the
    * mask has the width of unsigned int. */
  function NextDivisibleBy4AsWritten(value: SizeT): (r: SizeT)
    ensures r % 4 == 0
    ensures r < UINT32_MODULUS
    ensures value <= UINT32_MAX - 3 ==> value <= r <= value + 3
  {
    AndNarrowMask((value + 3) % SIZE_MODULUS)
  }

  /** The evidently intended operation: the mask ~size_t{3} clears only the two low
    * bits. The wrap-around of value + 3 is kept. */
  function NextDivisibleBy4(value: SizeT): (r: SizeT)
    ensures r % 4 == 0
    ensures value <= SIZE_MAX - 3 ==> value <= r <= value + 3
    ensures value <= SIZE_MAX - 3 ==> forall m: int :: value <= m < r ==> m % 4 != 0
    ensures value % 4 == 0 ==> r == value
  {
    (value + 3) % SIZE_MODULUS / 4 * 4
  }

  /** Applying the operation twice gives the same result as applying it once. */
  lemma NextDivisibleBy4Idempotent(value: SizeT)
    ensures NextDivisibleBy4(NextDivisibleBy4(value)) == NextDivisibleBy4(value)
  {
  }

  /** Without wrap-around the operation is monotone. */
  lemma NextDivisibleBy4Monotone(a: SizeT, b: SizeT)
    requires a <= b <= SIZE_MAX - 3
    ensures NextDivisibleBy4(a) <= NextDivisibleBy4(b)
  {
  }

  /** The two definitions agree on every value whose rounded result fits in 32 bits. */
  lemma AsWrittenAgreesBelow32Bits(value: SizeT)
    requires value <= UINT32_MAX - 3
    ensures NextDivisibleBy4AsWritten(value) == NextDivisibleBy4(value)
  {
  }

  /** The input 2^32 shows the narrow mask: the as-written code yields 0, while the
    * intended result is 2^32 itself. */
  lemma AsWrittenTruncatesAt2To32()
    ensures NextDivisibleBy4AsWritten(UINT32_MODULUS) == 0
    ensures NextDivisibleBy4(UINT32_MODULUS) == UINT32_MODULUS
  {
  }

  function Min(a: int, b: int): (r: int)
    ensures r <= a && r <= b && (r == a || r == b)
  {
    if a < b then a else b
  }

  function Max(a: int, b: int): (r: int)
    ensures a <= r && b <= r && (r == a || r == b)
  {
    if a < b then b else a
  }
}

/** Facts about integer multiplication and division that the index arithmetic of the image
  * layouts needs spelled out. */
module Arithmetic {
  /** The quotient and remainder of a division are fixed by any representation a == q*n + r
    * with 0 <= r < n. */
  lemma DivModUnique(a: nat, n: nat, q: nat, r: nat)
    requires 0 <= r < n && a == q * n + r
    ensures a / n == q && a % n == r
  {
    var q': int, r': int := a / n, a % n;
    var d: int := q' - q;
    assert d * n == r - r';
    if d >= 1 {
      MulMonotone(1, d, n);
    } else if d <= -1 {
      MulMonotone(1, -d, n);
    }
  }

  lemma MulMonotone(a: int, b: int, c: nat)
    requires a <= b
    ensures a * c <= b * c
  {
  }

  /** Row-major indices of a w x h grid stay below w*h. */
  lemma RowMajorBounded(x: nat, y: nat, w: nat, h: nat)
    requires x < w && y < h
    ensures x + y * w < w * h
  {
    MulMonotone(y, h - 1, w);
  }

  /** A quotient by n of something below n*m stays below m. */
  lemma QuotientBounded(a: nat, n: nat, m: nat)
    requires 0 < n && a < n * m
    ensures a / n < m
  {
    if a / n >= m {
      MulMonotone(m, a / n, n);
      assert false;
    }
  }
}
