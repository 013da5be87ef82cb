/** The 32-bit integers of the machine, and the laws of products used to reason about them. */
module Integers {
  newtype int32 = x: int | -0x8000_0000 <= x < 0x8000_0000
  type uint32 = x: nat | x < 0x1_0000_0000

  const TWO_32: int := 0x1_0000_0000
  const TWO_31: int := 0x8000_0000

  /** Reduction to an unsigned word, and to a signed one in two's complement. */
  function U32(x: int): (r: int)
    ensures 0 <= r < TWO_32
  {
    x % TWO_32
  }

  function S32(x: int): (r: int)
    ensures -TWO_31 <= r < TWO_31
  {
    var r := U32(x);
    if r < TWO_31 then r else r - TWO_32
  }

  predicate Int32(x: int) { -TWO_31 <= x < TWO_31 }

  lemma S32OfInt32(x: int)
    requires Int32(x)
    ensures S32(x) == x
  {
  }

  /** The residue is the only number of the range that differs by a multiple. */
  lemma U32Is(x: int, q: int, r: int)
    requires x == q * TWO_32 + r && 0 <= r < TWO_32
    ensures U32(x) == r
  {
  }

  // ----- products -----

  lemma Distributes(a: int, b: int, c: int)
    ensures (a + b) * c == a * c + b * c
  {
  }

  lemma TimesSum(a: int, b: int, c: int)
    ensures a * (b + c) == a * b + a * c
  {
  }

  lemma Associates(a: int, b: int, c: int)
    ensures (a * b) * c == a * (b * c) && (-(a * b)) * c == -(a * (b * c))
  {
  }

  lemma Multiples(p: int, g: int)
    ensures (p - 1) * g == p * g - g && (p + 1) * g == p * g + g && (p - 2) * g == p * g - 2 * g
  {
  }

  lemma Ordered(a: int, b: int, g: int)
    requires g >= 0
    ensures a <= b ==> a * g <= b * g
    ensures a > b ==> a * g >= b * g + g
  {
    assert a > b ==> a * g >= (b + 1) * g;
  }
}
