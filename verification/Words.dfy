/** Two's-complement machine words of 8 and 32 bits. */
module Words {

  const TWO31: int := 0x8000_0000
  const TWO32: int := 0x1_0000_0000

  type int32 = x: int | -0x8000_0000 <= x < 0x8000_0000
  type int8 = x: int | -128 <= x < 128

  predicate FitsInt32(x: int) {
    -TWO31 <= x < TWO31
  }

  /** The value an int32 register holds after computing `x`, modulo 2^32. */
  function Wrap32(x: int): (r: int32)
    ensures FitsInt32(x) ==> r == x
  {
    var m := x % TWO32;
    if m < TWO31 then m else m - TWO32
  }

  lemma WrapIsCongruent(x: int) returns (k: int)
    ensures Wrap32(x) == x + k * TWO32
  {
    k := if x % TWO32 < TWO31 then -(x / TWO32) else -(x / TWO32) - 1;
  }

  /** Wrapping once at the end is the same as wrapping at every addition. */
  lemma WrapOfSum(x: int, y: int)
    ensures Wrap32(Wrap32(x) + y) == Wrap32(x + y)
  {
    var k := WrapIsCongruent(x);
    WrapPeriodic(x + y, k);
  }

  lemma WrapPeriodic(x: int, k: int)
    ensures Wrap32(x + k * TWO32) == Wrap32(x)
  {
    var q, m := x / TWO32, x % TWO32;
    assert x + k * TWO32 == (q + k) * TWO32 + m;
    DivModUnique(x + k * TWO32, q + k, m);
  }

  lemma DivModUnique(x: int, q: int, m: int)
    requires x == q * TWO32 + m && 0 <= m < TWO32
    ensures x / TWO32 == q && x % TWO32 == m
  {
  }
}
