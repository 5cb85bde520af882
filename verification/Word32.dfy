/** Unsigned machine integers, and the modulo-2^32 arithmetic of TCP sequence numbers
    (section 3.4 of RFC 9293). */
module Word32 {

  const TWO_TO_32: int := 0x1_0000_0000

  type byte = x: int | 0 <= x < 256
  type uint8 = x: int | 0 <= x < 256
  type uint16 = x: int | 0 <= x < 65536
  type uint32 = x: int | 0 <= x < TWO_TO_32

  /** A uint32 holds an integer modulo 2^32. */
  function Wrap(x: int): uint32 {
    x % TWO_TO_32
  }

  /** How far `x` lies after `base` on the circle of 2^32 sequence numbers. */
  function Distance(base: uint32, x: uint32): uint32 {
    Wrap(x - base)
  }

  lemma WrapPeriodic(x: int, q: int)
    ensures Wrap(x + q * TWO_TO_32) == Wrap(x)
  {
    assert (x + q * TWO_TO_32) % TWO_TO_32 == x % TWO_TO_32;
  }

  /** uint32 addition may be applied before or after wrapping. */
  lemma WrapAdd(a: int, b: int)
    ensures Wrap(Wrap(a) + b) == Wrap(a + b)
  {
    var q := a / TWO_TO_32;
    assert a == q * TWO_TO_32 + Wrap(a);
    WrapPeriodic(Wrap(a) + b, q);
  }

  /** Two numbers less than 2^32 apart wrap to the same word only when they are equal. */
  lemma WrapInjective(a: int, b: int)
    requires -TWO_TO_32 < a - b < TWO_TO_32
    requires Wrap(a) == Wrap(b)
    ensures a == b
  {
    assert (a - b) % TWO_TO_32 == 0;
  }

  /** The unwrapped offset can be read back from the wrapped number. */
  lemma DistanceOfWrap(base: int, k: int)
    requires 0 <= k < TWO_TO_32
    ensures Distance(Wrap(base), Wrap(base + k)) == k
  {
    WrapAdd(base + k, 0 - Wrap(base));
    var q := base / TWO_TO_32;
    assert base + k - Wrap(base) == k + q * TWO_TO_32;
    WrapPeriodic(k, q);
  }
}
