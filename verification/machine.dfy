/** Machine integers of the C simulators: 32-bit unsigned values and their limits. */
module Machine {

  /** 2^32, the modulus of `unsigned int` / `uint32_t` arithmetic. */
  const Modulus32: int := 0x1_0000_0000

  /** `UINT_MAX` from limits.h. */
  const UintMax: int := 0xFFFF_FFFF

  /** `USHRT_MAX` from limits.h, the clamp of the skip table. */
  const UshrtMax: int := 0xFFFF

  /** A value of C's `unsigned int` (32 bits on the platforms the simulators target). */
  type Uint32 = x: int | 0 <= x < 0x1_0000_0000

  /** Unsigned addition as C performs it: the sum is reduced modulo 2^32. */
  function Add32(a: Uint32, b: Uint32): (r: Uint32)
    ensures a + b < Modulus32 ==> r == a + b
    ensures a + b >= Modulus32 ==> r == a + b - Modulus32
  {
    (a + b) % Modulus32
  }

  /** Euclidean remainder is unique: `q * b + r` leaves remainder `r` for `0 <= r < b`. */
  lemma ModOfMultiplePlus(q: int, b: int, r: int)
    requires b > 0 && 0 <= r < b
    ensures (q * b + r) % b == r
  {
    var x := q * b + r;
    var d := x / b - q;
    assert x == (x / b) * b + x % b;
    assert d * b == r - x % b;
    MultipleOutsideUnit(d, b);
  }

  /** A non-zero multiple of a positive `b` is at least `b` away from zero. */
  lemma MultipleOutsideUnit(d: int, b: int)
    requires b > 0
    ensures d > 0 ==> d * b >= b
    ensures d < 0 ==> d * b <= -b
  {
  }
}
