/**
 * Fixed-width integer arithmetic of the JVM, written out over Dafny's
 * unbounded integers: Kotlin `Int` is 32-bit and `Long` 64-bit two's
 * complement, both wrap around, and `/` truncates toward zero.
 */
module Jvm {

  const INT_MIN: int := -0x8000_0000
  const INT_MAX: int := 0x7FFF_FFFF
  const LONG_MIN: int := -0x8000_0000_0000_0000
  const LONG_MAX: int := 0x7FFF_FFFF_FFFF_FFFF

  predicate IsInt(x: int) { INT_MIN <= x <= INT_MAX }

  predicate IsLong(x: int) { LONG_MIN <= x <= LONG_MAX }

  /** A narrowing conversion to `Int`: keeps the low 32 bits. */
  function ToInt(x: int): (r: int)
    ensures IsInt(r)
    ensures IsInt(x) ==> r == x
  {
    (x - INT_MIN) % 0x1_0000_0000 + INT_MIN
  }

  /** A `Long` result of an operation that may overflow: keeps the low 64 bits. */
  function ToLong(x: int): (r: int)
    ensures IsLong(r)
    ensures IsLong(x) ==> r == x
  {
    (x - LONG_MIN) % 0x1_0000_0000_0000_0000 + LONG_MIN
  }

  /** Narrowing keeps a value modulo 2^32: values 2^32 apart narrow alike. */
  lemma ToIntCongruent(x: int)
    ensures (x - ToInt(x)) % 0x1_0000_0000 == 0
    ensures ToInt(x + 0x1_0000_0000) == ToInt(x)
  {
  }

  /** The 64-bit wrap-around keeps a value modulo 2^64. */
  lemma ToLongCongruent(x: int)
    ensures (x - ToLong(x)) % 0x1_0000_0000_0000_0000 == 0
    ensures ToLong(x + 0x1_0000_0000_0000_0000) == ToLong(x)
  {
  }

  /** A count of 3,000,000,000 (a 3 GB file's size in bytes) narrows to a negative `Int`. */
  lemma LargeValueNarrowsNegative()
    ensures ToInt(3_000_000_000) == 3_000_000_000 - 0x1_0000_0000 < 0
  {
  }

  /** `a / 1000` on `Long`, which truncates toward zero (Dafny's `/` is Euclidean). */
  function Div1000(a: int): (q: int)
    ensures a >= 0 ==> 0 <= a - 1000 * q < 1000
    ensures a < 0 ==> -1000 < a - 1000 * q <= 0
  {
    if a >= 0 then a / 1000 else -((-a) / 1000)
  }

  /** Truncating division by 1000 is monotone and undoes a multiplication by 1000. */
  lemma Div1000Monotone(a: int, b: int)
    requires a <= b
    ensures Div1000(a) <= Div1000(b)
  {
  }

  lemma Div1000OfMultiple(s: int)
    ensures Div1000(1000 * s) == s
  {
  }
}
