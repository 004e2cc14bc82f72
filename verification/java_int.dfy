/** Java's fixed-width integers over Dafny's unbounded ones. */
module JavaInt {

  const IntMax: int := 0x7fff_ffff
  const IntMin: int := -0x8000_0000

  /** A value of Java's 32-bit `int`. */
  predicate IsInt32(x: int) {
    IntMin <= x <= IntMax
  }

  /** Java `int` arithmetic: the result wraps into 32 bits. */
  function Wrap32(x: int): (r: int)
    ensures IsInt32(r)
    ensures IsInt32(x) ==> r == x
    ensures (r - x) % 0x1_0000_0000 == 0
  {
    (x - IntMin) % 0x1_0000_0000 + IntMin
  }

  /** Wrapping leaves a value that fits in an `int` alone, so its sign is unchanged. */
  lemma Wrap32Positive(x: int)
    requires IsInt32(x)
    ensures Wrap32(x) >= 1 <==> x >= 1
  {
  }

  /** One turn of wrap-around above the int range. */
  lemma Wrap32Above(x: int)
    requires IntMax < x <= IntMax + 0x1_0000_0000
    ensures Wrap32(x) == x - 0x1_0000_0000
  {
  }

  /** One turn of wrap-around below the int range. */
  lemma Wrap32Below(x: int)
    requires IntMin - 0x1_0000_0000 <= x < IntMin
    ensures Wrap32(x) == x + 0x1_0000_0000
  {
  }

  /** `BigInteger.longValue()`: the low 64 bits, as a signed long. */
  function LongValue(x: int): (r: int)
    ensures -0x8000_0000_0000_0000 <= r < 0x8000_0000_0000_0000
    ensures -0x8000_0000_0000_0000 <= x < 0x8000_0000_0000_0000 ==> r == x
  {
    (x + 0x8000_0000_0000_0000) % 0x1_0000_0000_0000_0000 - 0x8000_0000_0000_0000
  }
}
