/**
 * Java's fixed-width integers, as far as the cloud core depends on them:
 * timestamps are `long` milliseconds, and the two time comparisons of the
 * core subtract or add in `long` arithmetic, which wraps around.
 */
module JavaLong {

  const LONG_MIN: int := -0x8000_0000_0000_0000
  const LONG_MAX: int := 0x7FFF_FFFF_FFFF_FFFF
  const INT_MIN: int := -0x8000_0000
  const INT_MAX: int := 0x7FFF_FFFF

  type long = x: int | LONG_MIN <= x <= LONG_MAX

  /** The `long` a Java `long` expression with mathematical value `x` yields. */
  function Wrap(x: int): (r: long)
    ensures (r - x) % 0x1_0000_0000_0000_0000 == 0
    ensures LONG_MIN <= x <= LONG_MAX ==> r == x
  {
    (x - LONG_MIN) % 0x1_0000_0000_0000_0000 + LONG_MIN
  }

  /** `a - b` evaluated in `long` arithmetic. */
  function Sub(a: long, b: long): (r: long)
  {
    Wrap(a - b)
  }

  /** `a + b` evaluated in `long` arithmetic. */
  function Add(a: long, b: long): (r: long)
  {
    Wrap(a + b)
  }

  /** Subtracting a value that is not later than `a` does not wrap below zero. */
  lemma SubNonNegative(a: long, b: long)
    requires 0 <= b <= a
    ensures Sub(a, b) == a - b
  {
  }

  /** A sum past LONG_MAX wraps to a negative value. */
  lemma AddWrapsNegative(a: long, b: long)
    requires 0 <= a && 0 <= b && a + b > LONG_MAX
    ensures Add(a, b) == a + b - 0x1_0000_0000_0000_0000 < 0
  {
  }
}
