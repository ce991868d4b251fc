/**
 * Go's `int64`, with the two's-complement wrap-around of its subtraction written out.
 * Unix timestamps, the current time and the `-duration` threshold are all `int64` in the source.
 */
module Int64Arith {

  const MinInt64: int := -0x8000_0000_0000_0000
  const MaxInt64: int := 0x7fff_ffff_ffff_ffff
  const Two64: int := 0x1_0000_0000_0000_0000

  type Int64 = x: int | -0x8000_0000_0000_0000 <= x <= 0x7fff_ffff_ffff_ffff

  /** True when the mathematical difference `a - b` fits in an int64, so Go computes it exactly. */
  predicate NoOverflow(a: Int64, b: Int64)
  {
    MinInt64 <= a - b <= MaxInt64
  }

  /** `a - b` as Go evaluates it on int64 operands: the true difference reduced modulo 2^64 into range. */
  function Sub64(a: Int64, b: Int64): (r: Int64)
    ensures NoOverflow(a, b) ==> r == a - b
    ensures a - b > MaxInt64 ==> r == a - b - Two64
    ensures a - b < MinInt64 ==> r == a - b + Two64
  {
    (a - b - MinInt64) % Two64 + MinInt64
  }
}
