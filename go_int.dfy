/** Go's fixed-width integer semantics, written out over Dafny's unbounded `int`. */
module GoInt {

  const TwoTo64: int := 0x1_0000_0000_0000_0000
  const MaxUint64: int := 0xFFFF_FFFF_FFFF_FFFF
  const MinInt64: int := -0x8000_0000_0000_0000
  const MaxInt64: int := 0x7FFF_FFFF_FFFF_FFFF

  predicate IsUint64(x: int) { 0 <= x <= MaxUint64 }

  predicate IsInt64(x: int) { MinInt64 <= x <= MaxInt64 }

  /** Conversion to `uint64`: keeps the low 64 bits. */
  function WrapUint64(x: int): (r: int)
    ensures IsUint64(r)
    ensures (r - x) % TwoTo64 == 0
    ensures IsUint64(x) ==> r == x
  {
    x % TwoTo64
  }

  /** Conversion to `int64` (two's complement): keeps the low 64 bits, read as signed. */
  function WrapInt64(x: int): (r: int)
    ensures IsInt64(r)
    ensures (r - x) % TwoTo64 == 0
    ensures IsInt64(x) ==> r == x
  {
    var m := x % TwoTo64;
    if m > MaxInt64 then m - TwoTo64 else m
  }

  /** Unary minus on `int64`: the negation of MinInt64 overflows back to MinInt64. */
  function Neg64(x: int): (r: int)
    requires IsInt64(x)
    ensures IsInt64(r)
    ensures x != MinInt64 ==> r == -x
    ensures x == MinInt64 ==> r == MinInt64
  {
    WrapInt64(-x)
  }

  /** Go's integer division: the quotient is truncated toward zero. */
  function Quot(a: int, b: int): (q: int)
    requires b > 0
    ensures a >= 0 ==> 0 <= a - b * q < b
    ensures a < 0 ==> -b < a - b * q <= 0
  {
    if a >= 0 then a / b else -((-a) / b)
  }

  /** Go's `%`: the remainder takes the sign of the dividend. */
  function Rem(a: int, b: int): (r: int)
    requires b > 0
    ensures a == b * Quot(a, b) + r
    ensures a >= 0 ==> 0 <= r < b
    ensures a < 0 ==> -b < r <= 0
  {
    a - b * Quot(a, b)
  }
}
