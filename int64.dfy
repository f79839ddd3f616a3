/** C#'s `long` and `int` as mathematical integers within their ranges, with the
    two's-complement wrap-around and the bitwise operators written out. */
module Int64 {
  import opened Bits

  const TwoTo63: int := 0x8000_0000_0000_0000
  const TwoTo64: int := 0x1_0000_0000_0000_0000

  /** A C# `long`. */
  type Long = x: int | -TwoTo63 <= x < TwoTo63

  /** A C# `int`. */
  type Int = x: int | -0x8000_0000 <= x < 0x8000_0000

  /** A C# `byte`. */
  type Byte = x: int | 0 <= x < 0x100

  /** Unchecked `long` arithmetic: the long congruent to `x` modulo 2^64. */
  function Wrap(x: int): (r: Long)
    ensures -TwoTo63 <= x < TwoTo63 ==> r == x
    ensures x - r == ((x + TwoTo63) / TwoTo64) * TwoTo64
  {
    (x + TwoTo63) % TwoTo64 - TwoTo63
  }

  /** The 64 bits of a long, read as an unsigned number. */
  function Unsigned(a: Long): (u: nat)
    ensures u < TwoTo64
    ensures u == a || u == a + TwoTo64
  {
    if a < 0 then a + TwoTo64 else a
  }

  /** The long whose bits are the unsigned number `u`. */
  function Signed(u: nat): (a: Long)
    requires u < TwoTo64
    ensures Unsigned(a) == u
  {
    if u < TwoTo63 then u else u - TwoTo64
  }

  /** `a & b`, `a | b` or `a ^ b` on two longs. */
  function Apply(op: Op, a: Long, b: Long): Long {
    Pow2Values();
    Signed(Bitwise(op, Unsigned(a), Unsigned(b), 64))
  }

  /** `a << k` on a long, for a shift count below 64. */
  function ShiftLeft(a: Long, k: nat): Long
    requires k < 64
  {
    Wrap(a * Pow2(k))
  }

  /** A number that fits 64 bits survives wrapping into a long and reading the
      bits back. */
  lemma UnsignedWrap(x: int)
    requires 0 <= x < TwoTo64
    ensures Unsigned(Wrap(x)) == x
  {
  }

  /** Wrapping and reading back unsigned changes a number by a multiple of 2^64,
      so it keeps its remainder modulo 4096. */
  lemma UnsignedWrapMod4096(x: int)
    ensures Unsigned(Wrap(x)) % 4096 == x % 4096
  {
    var m := (x + TwoTo63) / TwoTo64;
    var u := Unsigned(Wrap(x));
    assert u == x - m * TwoTo64 || u == x - m * TwoTo64 + TwoTo64;
    assert u == x + (1 - m) * 0x10_0000_0000_0000 * 4096 || u == x - m * 0x10_0000_0000_0000 * 4096;
  }

  /** Two longs whose bit patterns lie in the same half (both with the sign bit
      clear, or both with it set) compare as their unsigned readings do. */
  lemma SignedOrder(a: Long, b: Long)
    requires Unsigned(a) < Unsigned(b)
    requires Unsigned(a) < TwoTo63 <==> Unsigned(b) < TwoTo63
    ensures a < b
  {
  }
}
