/** int64 arithmetic with its wrap-around written out. */
module Int64 {

  const MAX64 := 0x7FFF_FFFF_FFFF_FFFF
  const TWO64 := 0x1_0000_0000_0000_0000

  /** The int64 that a machine operation with exact result x produces. */
  function Wrap64(x: int): int {
    (x + 0x8000_0000_0000_0000) % 0x1_0000_0000_0000_0000 - 0x8000_0000_0000_0000
  }

  /** Go's division by a positive constant: towards zero. */
  function TruncDiv(x: int, d: nat): int
    requires d > 0
  {
    if x >= 0 then x / d else -(-x / d)
  }

  /** Wrapping never gains: a wrapped product is at most the true one. */
  lemma WrapNeverGains(x: nat)
    ensures Wrap64(x) <= x && Wrap64(x) <= MAX64
    ensures x <= MAX64 ==> Wrap64(x) == x
  {
  }

  lemma WrapIdle(x: int)
    requires -MAX64 <= x <= MAX64
    ensures Wrap64(x) == x
  {
  }

  /** What wrapping removes is a multiple of 2^64, and it removes nothing exactly within the int64 range. */
  lemma WrapIsExact(x: int)
    ensures (x - Wrap64(x)) / TWO64 * TWO64 == x - Wrap64(x)
    ensures -MAX64 - 1 <= x <= MAX64 <==> x == Wrap64(x)
  {
    var y := x + 0x8000_0000_0000_0000;
    assert x - Wrap64(x) == y / TWO64 * TWO64;
  }
}
