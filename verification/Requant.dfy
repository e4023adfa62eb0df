/** Fixed-point requantisation of an int32 accumulator to an int8 output. */
module Requant {
  import opened Words
  import opened Arith

  const INT32_MIN: int := -TWO31
  const TWO63: int := 0x8000_0000_0000_0000
  const TWO64: int := 0x1_0000_0000_0000_0000

  function Wrap64(x: int): (r: int)
    ensures -TWO63 <= r < TWO63
    ensures -TWO63 <= x < TWO63 ==> r == x
  {
    var m := x % TWO64;
    if m < TWO63 then m else m - TWO64
  }

  /** The range the kernel's specification demands of every shift. */
  predicate ShiftInRange(sh: int) {
    -30 <= sh <= 32
  }

  /** `1 << (sh + 30)` is representable in int64 and `>> (sh + 31)` shifts by less than its width. */
  ghost predicate ShiftsDefined(sh: int) {
    && 0 <= sh + 30 && Pow2(sh + 30) < TWO63
    && 0 <= sh + 31 < 64
  }

  /** The sum that is shifted right, before it is reduced to 64 bits. */
  function Scaled(t: int32, mult: int32, sh: int): int
    requires ShiftInRange(sh)
  {
    t * mult + Pow2(sh + 30)
  }

  /** The int64 value before the cast; an arithmetic right shift is a floor division. */
  function Shifted(t: int32, mult: int32, sh: int): int
    requires ShiftInRange(sh)
  {
    Wrap64(Scaled(t, mult, sh)) / Pow2(sh + 31)
  }

  function Clamp(v: int): (r: int)
    ensures 0 <= r <= 255
  {
    var u := if v < 255 then v else 255;
    if u > 0 then u else 0
  }

  function Distance(a: int, b: int): nat {
    if a < b then b - a else a - b
  }

  /** Clamping takes the nearest byte: none is nearer, and every other one is farther. */
  lemma ClampIsNearest(v: int, b: int)
    requires 0 <= b <= 255 && b != Clamp(v)
    ensures Distance(v, Clamp(v)) < Distance(v, b)
  {
  }

  /** The stored byte. */
  function Requantise(t: int32, mult: int32, sh: int): int8
    requires ShiftInRange(sh)
  {
    Clamp(Wrap32(Shifted(t, mult, sh))) - 128
  }

  // Powers of two ------------------------------------------------------------

  lemma {:induction false} Pow2Add(m: nat, n: nat)
    ensures Pow2(m + n) == Pow2(m) * Pow2(n)
  {
    if n > 0 {
      Pow2Add(m, n - 1);
    }
  }

  lemma {:induction false} Pow2Monotone(m: nat, n: nat)
    requires m < n
    ensures 2 * Pow2(m) <= Pow2(n)
  {
    if m < n - 1 {
      Pow2Monotone(m, n - 1);
    }
  }

  lemma Pow2Values()
    ensures Pow2(8) == 256 && Pow2(16) == 65536
    ensures Pow2(30) == TWO31 / 2 && Pow2(31) == TWO31 && Pow2(32) == TWO32
    ensures Pow2(62) == TWO63 / 2 && Pow2(63) == TWO63
  {
    assert Pow2(8) == 256;
    Pow2Add(8, 8);
    Pow2Add(16, 8);
    assert Pow2(24) == 16777216;
    assert Pow2(30) == 64 * Pow2(24);
    Pow2Add(30, 32);
  }

  // Definedness and overflow ---------------------------------------------------

  /** The specified range is exactly the set of shifts for which C defines both shifts. */
  lemma RangeIsDefinedShifts(sh: int)
    ensures ShiftInRange(sh) <==> ShiftsDefined(sh)
  {
    Pow2Values();
    if -30 <= sh < 32 {
      Pow2Monotone(sh + 30, 62);
    }
  }

  lemma ProductBounds(t: int, mult: int)
    requires FitsInt32(t) && FitsInt32(mult)
    ensures -0x3FFF_FFFF_8000_0000 <= t * mult <= 0x4000_0000_0000_0000
    ensures t * mult > 0x3FFF_FFFF_8000_0000 <==> t == INT32_MIN && mult == INT32_MIN
  {
    if t == INT32_MIN {
      assert t * mult == -0x8000_0000 * mult;
    } else {
      BoundedProduct(t, mult, 0x7FFF_FFFF, 0x8000_0000);
    }
  }

  lemma BoundedProduct(x: int, y: int, a: int, b: int)
    requires -a <= x <= a && -b <= y <= b
    ensures -(a * b) <= x * y <= a * b
  {
    if x < 0 {
      NegatedFactor(x, y);
      BoundedByMagnitude(-x, y, a, b);
    } else {
      BoundedByMagnitude(x, y, a, b);
    }
  }

  lemma BoundedByMagnitude(x: int, y: int, a: int, b: int)
    requires 0 <= x <= a && -b <= y <= b
    ensures -(a * b) <= x * y <= a * b
  {
    ProductMonotone(x, a, b);
    if y < 0 {
      NegatedFactor(y, x);
      ProductMonotone(-y, b, x);
    } else {
      ProductMonotone(y, b, x);
    }
  }

  lemma NegatedFactor(x: int, y: int)
    ensures (-x) * y == -(x * y)
  {
  }

  /** The int64 sum overflows for exactly one triple of operands. */
  lemma SumOverflowsExactly(t: int32, mult: int32, sh: int)
    requires ShiftInRange(sh)
    ensures !(-TWO63 <= Scaled(t, mult, sh) < TWO63) <==> t == INT32_MIN && mult == INT32_MIN && sh == 32
  {
    Pow2Values();
    ProductBounds(t, mult);
    if sh < 32 {
      Pow2Monotone(sh + 30, 62);
    }
  }

  // Rounding -------------------------------------------------------------------

  /** `v` is `p / 2^k` rounded to the nearest integer, ties upward: v - 1/2 <= p / 2^k < v + 1/2. */
  ghost predicate RoundsHalfUp(p: int, k: nat, v: int) {
    (2 * v - 1) * Pow2(k) <= 2 * p < (2 * v + 1) * Pow2(k)
  }

  lemma RoundingIsUnique(p: int, k: nat, v: int, v': int)
    requires RoundsHalfUp(p, k, v) && RoundsHalfUp(p, k, v')
    ensures v == v'
  {
    OneMultiple(2 * p, Pow2(k), v, v');
  }

  lemma OneMultiple(p: int, q: int, v: int, v': int)
    requires q >= 1 && (2 * v - 1) * q <= p < (2 * v + 1) * q && (2 * v' - 1) * q <= p < (2 * v' + 1) * q
    ensures v == v'
  {
    var a, b := v * (2 * q), v' * (2 * q);
    assert (2 * v - 1) * q == a - q && (2 * v + 1) * q == a + q;
    assert (2 * v' - 1) * q == b - q && (2 * v' + 1) * q == b + q;
    SameDivision(v, p + q - a, v', p + q - b, 2 * q);
  }

  /** The one triple for which the int64 sum overflows. */
  predicate SumOverflows(t: int32, mult: int32, sh: int) {
    t == INT32_MIN && mult == INT32_MIN && sh == 32
  }

  /** Away from the one overflowing triple, the shift computes the rounded quotient. */
  lemma ShiftedIsRounded(t: int32, mult: int32, sh: int)
    requires ShiftInRange(sh) && !SumOverflows(t, mult, sh)
    ensures RoundsHalfUp(t * mult, sh + 31, Shifted(t, mult, sh))
  {
    SumOverflowsExactly(t, mult, sh);
    var half, full := Pow2(sh + 30), Pow2(sh + 31);
    assert full == 2 * half;
    var v := Shifted(t, mult, sh);
    Division(t * mult + half, full);
    RoundingFromQuotient(t * mult, half, full, v);
  }

  lemma RoundingFromQuotient(p: int, half: int, full: int, v: int)
    requires full == 2 * half && v * full <= p + half < v * full + full
    ensures (2 * v - 1) * full <= 2 * p < (2 * v + 1) * full
  {
    assert (2 * v - 1) * full == 2 * (v * full) - full;
    assert (2 * v + 1) * full == 2 * (v * full) + full;
  }

  lemma {:induction false} Pow2Near(sh: nat)
    ensures Pow2(sh + 30) == 0x4000_0000 * Pow2(sh) && Pow2(sh + 31) == 0x8000_0000 * Pow2(sh)
  {
    if sh == 0 {
      Pow2Values();
    } else {
      Pow2Near(sh - 1);
    }
  }

  lemma ScaledInRange(t: int32, mult: int32, sh: nat)
    requires sh <= 32 && !(t == INT32_MIN && mult == INT32_MIN && sh == 0)
    ensures -0x8000_0000 * Pow2(sh + 31) <= Scaled(t, mult, sh) < 0x8000_0000 * Pow2(sh + 31)
  {
    ProductBounds(t, mult);
    Pow2Near(sh);
    if sh > 0 {
      Pow2Monotone(0, sh);
    }
  }

  /** What a caller checks on the operands: the rounded quotient is an int32. */
  predicate CastFits(t: int32, mult: int32, sh: int)
    requires ShiftInRange(sh)
  {
    -TWO31 * Pow2(sh + 31) <= Scaled(t, mult, sh) < TWO31 * Pow2(sh + 31)
  }

  /** The cast to int32 keeps the shifted value exactly when the operands are in that range. */
  lemma CastKeepsExactly(t: int32, mult: int32, sh: int)
    requires ShiftInRange(sh) && !SumOverflows(t, mult, sh)
    ensures Wrap32(Shifted(t, mult, sh)) == Shifted(t, mult, sh) <==> CastFits(t, mult, sh)
  {
    SumOverflowsExactly(t, mult, sh);
    FloorBetweenExactly(Scaled(t, mult, sh), Pow2(sh + 31), -TWO31, TWO31);
  }

  lemma FloorBetweenExactly(a: int, b: int, lo: int, hi: int)
    requires b >= 1
    ensures lo <= a / b < hi <==> lo * b <= a < hi * b
  {
    var q := a / b;
    Division(a, b);
    if lo * b <= a < hi * b {
      QuotientBetween(a, b, lo, hi);
    }
    if lo <= q < hi {
      ProductMonotone(0, q - lo, b);
      Distributes(q, lo, b);
      ProductMonotone(0, hi - q - 1, b);
      Distributes(hi, q + 1, b);
      assert (q + 1) * b == q * b + b;
    }
  }

  /** For non-negative shifts that leaves out one pair of operands. */
  lemma CastLosesExactly(t: int32, mult: int32, sh: int)
    requires 0 <= sh <= 32
    ensures !CastFits(t, mult, sh) <==> t == INT32_MIN && mult == INT32_MIN && sh == 0
  {
    if t == INT32_MIN && mult == INT32_MIN && sh == 0 {
      Pow2Values();
    } else {
      ScaledInRange(t, mult, sh);
    }
  }

  // What the caller gets ---------------------------------------------------------

  /** A quotient outside int32 that still clamps to its own side after the cast. */
  predicate ClampsToItsSide(v: int) {
    if v > 0 then Wrap32(v) >= 255 else Wrap32(v) <= 0
  }

  /**
   * The stored byte is the clamped, half-up rounded t * mult / 2^(sh + 31) exactly
   * when the sum does not overflow and the cast keeps the quotient or happens to
   * leave it on its own side of the clamp.
   */
  lemma RequantiseIsRoundingExactly(t: int32, mult: int32, sh: int, v: int)
    requires ShiftInRange(sh) && RoundsHalfUp(t * mult, sh + 31, v)
    ensures Requantise(t, mult, sh) == Clamp(v) - 128 <==>
            !SumOverflows(t, mult, sh) && (CastFits(t, mult, sh) || ClampsToItsSide(v))
    ensures 0 <= v <= 255 && !SumOverflows(t, mult, sh) ==> Requantise(t, mult, sh) == v - 128
  {
    if SumOverflows(t, mult, sh) {
      OverflowStoresTooLittle(v);
    } else {
      ShiftedIsRounded(t, mult, sh);
      RoundingIsUnique(t * mult, sh + 31, v, Shifted(t, mult, sh));
      CastKeepsExactly(t, mult, sh);
    }
  }

  /** The overflowing triple stores -128 where -127 is the rounded quotient 1/2. */
  lemma OverflowStoresTooLittle(v: int)
    requires RoundsHalfUp(INT32_MIN * INT32_MIN, 63, v)
    ensures v == 1 && Requantise(INT32_MIN, INT32_MIN, 32) == -128
  {
    Pow2Values();
    RoundingIsUnique(INT32_MIN * INT32_MIN, 63, v, 1);
    assert Scaled(INT32_MIN, INT32_MIN, 32) == TWO63;
    assert Wrap64(TWO63) == -TWO63;
  }

  /** Inside the specified shift range a large positive quotient can store the smallest byte. */
  lemma LargeQuotientStoresLeast()
    ensures RoundsHalfUp(4 * 0x4000_0000, 1, TWO31)
    ensures Requantise(4, 0x4000_0000, -30) == -128 && Clamp(TWO31) - 128 == 127
  {
    assert Pow2(0) == 1 && Pow2(1) == 2;
    assert Scaled(4, 0x4000_0000, -30) == TWO32 + 1;
  }

  lemma ShiftedMonotone(t: int32, t': int32, mult: int32, sh: int)
    requires mult >= 0 && ShiftInRange(sh) && t <= t'
    ensures Shifted(t, mult, sh) <= Shifted(t', mult, sh)
  {
    Distributes(t', t, mult);
    ProductMonotone(0, t' - t, mult);
    SumOverflowsExactly(t, mult, sh);
    SumOverflowsExactly(t', mult, sh);
    QuotientMonotone(Scaled(t, mult, sh), Scaled(t', mult, sh), Pow2(sh + 31));
  }

  /** With a non-negative multiplier a larger accumulator never stores a smaller byte. */
  lemma RequantiseMonotone(t: int32, t': int32, mult: int32, sh: int)
    requires mult >= 0 && ShiftInRange(sh) && t <= t'
    requires CastFits(t, mult, sh) && CastFits(t', mult, sh)
    ensures Requantise(t, mult, sh) <= Requantise(t', mult, sh)
  {
    ShiftedMonotone(t, t', mult, sh);
    CastKeepsExactly(t, mult, sh);
    CastKeepsExactly(t', mult, sh);
  }
}
