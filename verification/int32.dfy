/** Java's 32-bit `int`, with the two's-complement wrap-around of `+`. */
module Int32 {

  const MIN: int := -0x8000_0000
  const MAX: int := 0x7fff_ffff
  const MODULUS: int := 0x1_0000_0000

  type int32 = x: int | -0x8000_0000 <= x <= 0x7fff_ffff

  /** The `int` value Java holds after computing the mathematical value `x`. */
  function Wrap(x: int): (r: int32)
    ensures MIN <= x <= MAX ==> r == x
  {
    (x - MIN) % MODULUS + MIN
  }

  /** `x + 1` on a Java `int`: `MAX + 1` overflows to `MIN`. */
  function Increment(x: int32): (r: int32)
    ensures x < MAX ==> r == x + 1
    ensures x == MAX ==> r == MIN
  {
    Wrap(x + 1)
  }

  /** Wrapping an intermediate result does not change the final wrapped value. */
  lemma WrapAdd(x: int, k: int)
    ensures Wrap(Wrap(x) + k) == Wrap(x + k)
  {
    var q := (x - MIN) / MODULUS;
    assert Wrap(x) == x - q * MODULUS;
    var y := x + k - MIN;
    assert Wrap(x) + k - MIN == y - q * MODULUS;
    assert (y - q * MODULUS) % MODULUS == y % MODULUS;
  }

  /** Java `int` addition of two wrapped values wraps the exact sum. */
  lemma WrapSum(x: int, y: int)
    ensures Wrap(Wrap(x) + Wrap(y)) == Wrap(x + y)
  {
    WrapAdd(x, Wrap(y));
    WrapAdd(y, x);
  }

  /** Java `int` addition of two wrapped counts is the wrapped total count;
      while the total fits, it is the exact total. */
  lemma WrappedCountsAdd(x: nat, y: nat, u: int32, v: int32, w: int32)
    requires u == Wrap(x) && v == Wrap(y) && w == Wrap(x + y)
    ensures w == Wrap(u + v)
    ensures x + y <= MAX ==> w == u + v
  {
    WrapSum(x, y);
  }
}
