/** Go's fixed-width integers and the arithmetic on them that the rate limiter relies on:
    two's-complement wrap-around on overflow, truncating conversions, and division that
    rounds toward zero. */
module GoInt {

  const TWO_32: int := 0x1_0000_0000
  const TWO_64: int := 0x1_0000_0000_0000_0000

  const INT32_MIN: int := -0x8000_0000
  const INT32_MAX: int := 0x7fff_ffff
  const INT64_MIN: int := -0x8000_0000_0000_0000
  const INT64_MAX: int := 0x7fff_ffff_ffff_ffff

  /** Go's `int32`. */
  type int32 = x: int | -0x8000_0000 <= x < 0x8000_0000

  /** Go's `int64` (and `int`, which is 64 bits wide on the platforms the service targets). */
  type int64 = x: int | -0x8000_0000_0000_0000 <= x < 0x8000_0000_0000_0000

  function Min(a: int, b: int): (r: int) { if a <= b then a else b }

  function Max(a: int, b: int): (r: int) { if a <= b then b else a }

  /** The `int32` that Go produces for the mathematical value `x`: the result of `int32(x)`
      and of any `int32` addition whose exact sum is `x`. */
  function Wrap32(x: int): (r: int32)
    ensures (r - x) % TWO_32 == 0
    ensures INT32_MIN <= x <= INT32_MAX ==> r == x
  {
    var m := x % TWO_32;
    if m <= INT32_MAX then m else m - TWO_32
  }

  /** The `int64` that Go produces for an `int64` operation whose exact result is `x`. */
  function Wrap64(x: int): (r: int64)
    ensures (r - x) % TWO_64 == 0
    ensures INT64_MIN <= x <= INT64_MAX ==> r == x
  {
    var m := x % TWO_64;
    if m <= INT64_MAX then m else m - TWO_64
  }

  /** Go's integer division `a / b`, which truncates toward zero (Dafny's `/` is Euclidean):
      the magnitude is the quotient of the magnitudes and the sign is the product of the
      signs. A zero divisor is a run-time panic in Go, hence the precondition. */
  function TruncDiv(a: int, b: int): (q: int)
    requires b != 0
    ensures Abs(q) == Abs(a) / Abs(b)
    ensures q < 0 ==> (a < 0) != (b < 0)
    ensures q > 0 ==> (a < 0) == (b < 0)
    ensures 0 <= a && 0 < b ==> q == a / b
  {
    var q0 := Abs(a) / Abs(b);
    DivNonNegative(Abs(a), Abs(b));
    if (a < 0) == (b < 0) then q0 else -q0
  }

  lemma DivNonNegative(x: nat, y: nat)
    requires y > 0
    ensures x / y >= 0
  {
  }

  function Abs(x: int): (r: nat) { if x < 0 then -x else x }
}
