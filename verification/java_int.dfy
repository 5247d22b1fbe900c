/** Java's 32-bit `int`: its range, and the two's-complement wrap-around
    that `int` arithmetic performs when an exact result leaves the range. */
module JavaInt {

  const MinInt: int := -0x8000_0000
  const MaxInt: int := 0x7FFF_FFFF
  const Modulus: int := 0x1_0000_0000

  type Int32 = x: int | -0x8000_0000 <= x <= 0x7FFF_FFFF

  /** The `int` that Java arithmetic produces for an exact result `x`. */
  function Wrap(x: int): (r: Int32)
    ensures (x - r) % Modulus == 0
    ensures MinInt <= x <= MaxInt ==> r == x
  {
    var m := x % Modulus;
    if m > MaxInt then m - Modulus else m
  }

  /** Euclidean division by 2^32: `r` is the remainder of `x`. */
  lemma ModOf(x: int, q: int, r: int)
    requires x == Modulus * q + r && 0 <= r < Modulus
    ensures x % Modulus == r
  {
  }

  /** Adding a multiple of 2^32 does not change the wrapped value. */
  lemma WrapShift(x: int, k: int)
    ensures Wrap(x + Modulus * k) == Wrap(x)
  {
    ModOf(x + Modulus * k, x / Modulus + k, x % Modulus);
  }

  /** One step of a wrapping `h = 31 * h + c` loop may wrap the running
      value early or late: the int result is the same. */
  lemma WrapStep(p: int, c: int)
    ensures Wrap(31 * Wrap(p) + c) == Wrap(31 * p + c)
  {
    var w := Wrap(p);
    var q := if p % Modulus > MaxInt then p / Modulus + 1 else p / Modulus;
    assert p == w + Modulus * q;
    assert 31 * p + c == (31 * w + c) + Modulus * (31 * q);
    WrapShift(31 * w + c, 31 * q);
  }

  /** A non-negative exact value below 2^32 wraps to a negative int
      exactly when it exceeds `Integer.MAX_VALUE`. */
  lemma WrapOverflow(x: int)
    requires 0 <= x < Modulus
    ensures Wrap(x) < 0 <==> x > MaxInt
  {
    assert x % Modulus == x;
  }
}
