/** Go's fixed-width integer types and the two's-complement wrap-around of `int64` arithmetic. */
module GoInts {

  const TWO_63: int := 0x8000_0000_0000_0000
  const TWO_64: int := 0x1_0000_0000_0000_0000

  type uint8 = x: int | 0 <= x < 0x100
  type uint16 = x: int | 0 <= x < 0x1_0000
  type uint32 = x: int | 0 <= x < 0x1_0000_0000
  type uint64 = x: int | 0 <= x < 0x1_0000_0000_0000_0000
  type int64 = x: int | -0x8000_0000_0000_0000 <= x < 0x8000_0000_0000_0000

  /** The `int64` that Go's wrapping arithmetic yields for the mathematical value `x`:
      the unique `int64` congruent to `x` modulo 2^64. */
  function Wrap64(x: int): (r: int64)
    ensures -TWO_63 <= x < TWO_63 ==> r == x
    ensures (x - r) % TWO_64 == 0
  {
    (x + TWO_63) % TWO_64 - TWO_63
  }

  /** The quotient that Wrap64 takes away: wrapping subtracts a multiple of 2^64. */
  function WrapQuotient(x: int): int {
    (x + TWO_63) / TWO_64
  }

  lemma WrapIsShift(x: int)
    ensures Wrap64(x) == x - WrapQuotient(x) * TWO_64
  {
  }

  lemma ModShift(a: int, k: int)
    ensures (a + k * TWO_64) % TWO_64 == a % TWO_64
  {
  }

  /** Shifting by a multiple of 2^64 does not change the wrapped value. */
  lemma WrapShift(x: int, k: int)
    ensures Wrap64(x + k * TWO_64) == Wrap64(x)
  {
    assert x + k * TWO_64 + TWO_63 == (x + TWO_63) + k * TWO_64;
    ModShift(x + TWO_63, k);
  }

  /** Adding to an already wrapped accumulator is the same as wrapping the exact sum. */
  lemma WrapAdd(a: int, b: int)
    ensures Wrap64(Wrap64(a) + b) == Wrap64(a + b)
  {
    WrapIsShift(a);
    assert Wrap64(a) + b == (a + b) + (-WrapQuotient(a)) * TWO_64;
    WrapShift(a + b, -WrapQuotient(a));
  }

  /** Subtracting two wrapped accumulators is the same as wrapping the exact difference. */
  lemma WrapSub(a: int, b: int)
    ensures Wrap64(Wrap64(a) - Wrap64(b)) == Wrap64(a - b)
  {
    WrapIsShift(a);
    WrapIsShift(b);
    var k := WrapQuotient(b) - WrapQuotient(a);
    assert Wrap64(a) - Wrap64(b) == (a - b) + k * TWO_64;
    WrapShift(a - b, k);
  }
}
