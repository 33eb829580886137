/** Bytes, Go's fixed-width integers, and an optional value. */
module Bytes {

  type byte = x: int | 0 <= x < 256

  const MAX_INT32: int := 0x7FFF_FFFF
  const MAX_INT64: int := 0x7FFF_FFFF_FFFF_FFFF
  const MIN_INT64: int := -0x8000_0000_0000_0000
  const TWO_TO_THE_32: int := 0x1_0000_0000
  const TWO_TO_THE_64: int := 0x1_0000_0000_0000_0000

  datatype Option<+T> = None | Some(value: T)

  function Min(a: int, b: int): int {
    if a < b then a else b
  }

  /** The int64 that Go's wrapping arithmetic leaves for the mathematical integer x. */
  function Int64(x: int): int {
    (x - MIN_INT64) % TWO_TO_THE_64 + MIN_INT64
  }

  lemma Int64Absorbs(a: int, b: int)
    ensures Int64(Int64(a) + b) == Int64(a + b)
  {
  }

  lemma Int64InRange(a: int)
    requires MIN_INT64 <= a <= MAX_INT64
    ensures Int64(a) == a
  {
  }

  /** Just above the range, a sum wraps to a negative number. */
  lemma Int64Wraps(a: int)
    requires MAX_INT64 < a <= 2 * MAX_INT64
    ensures Int64(a) < 0
  {
  }

  /** Go's conversion to uint32. */
  function Uint32(x: int): (r: nat)
    ensures r < TWO_TO_THE_32
  {
    x % TWO_TO_THE_32
  }

  /** Go's integer division truncates toward zero. */
  function Quot(a: int, b: int): int
    requires b != 0
  {
    if (a >= 0) == (b > 0) then Abs(a) / Abs(b) else -(Abs(a) / Abs(b))
  }

  /** Go's remainder takes the sign of the dividend. */
  function Rem(a: int, b: int): int
    requires b != 0
  {
    if a >= 0 then a % Abs(b) else -(Abs(a) % Abs(b))
  }

  function Abs(a: int): nat {
    if a < 0 then -a else a
  }

  /** Truncated division satisfies the Euclidean equation and the sign rule of the Go specification. */
  lemma QuotRem(a: int, b: int)
    requires b != 0
    ensures Quot(a, b) * b + Rem(a, b) == a
    ensures Abs(Rem(a, b)) < Abs(b)
    ensures a >= 0 ==> Rem(a, b) >= 0
    ensures a <= 0 ==> Rem(a, b) <= 0
  {
    var q, r := Abs(a) / Abs(b), Abs(a) % Abs(b);
    assert q * Abs(b) + r == Abs(a);
    if a < 0 {
      assert -(q * Abs(b)) == (-q) * Abs(b);
    }
  }
}
