/** Rounding an IEEE 754 binary32 to the nearest integer by shifting its bits. */
module Rounding {
  import opened Bytes
  import opened Bitwise

  const SIZE := 32
  const SIGNIFICAND_WIDTH := 24
  const EXP_BIAS := 127
  const EXP_BIT_MASK := 0x7f80_0000
  const SIGNIF_BIT_MASK := 0x7f_ffff
  const FRACTION_LIMIT := 0x80_0000
  const SIGN_BIT := 0x8000_0000
  const I32_MAX := 0x7fff_ffff
  const I32_MIN := -0x8000_0000

  /** All bit patterns of a binary32. */
  type Bits = n: nat | n < 0x1_0000_0000

  // ---------------------------------------------------------------- the fields of a bit pattern

  predicate Negative(bits: Bits) {
    bits >= SIGN_BIT
  }

  /** The eight bits above the fraction. */
  function BiasedExponent(bits: Bits): (e: nat)
    ensures e < 256
  {
    bits / FRACTION_LIMIT % 256
  }

  /** The low 23 bits. */
  function Fraction(bits: Bits): (f: nat)
    ensures f < FRACTION_LIMIT
  {
    bits % FRACTION_LIMIT
  }

  /** The masks of the source select these fields. */
  lemma {:induction false} FieldsAreMasked(bits: Bits)
    ensures Shr(And(bits, EXP_BIT_MASK), SIGNIFICAND_WIDTH - 1) == BiasedExponent(bits)
    ensures Or(And(bits, SIGNIF_BIT_MASK), SIGNIF_BIT_MASK + 1) == FRACTION_LIMIT + Fraction(bits)
  {
    Powers();
    AndField(bits, 8, 23);
    ShrIsDivision(bits, 23);
    ShrIsDivision(Shl(BiasedExponent(bits), 23), 23);
    DivisionIs(Shl(BiasedExponent(bits), 23), Pow2(23), BiasedExponent(bits), 0);
    AndLow(bits, 23);
    OrDisjoint(Fraction(bits), 1, 23);
  }

  lemma Powers()
    ensures Pow2(8) == 256 && Pow2(23) == FRACTION_LIMIT
  {
    assert Pow2(8) == 256 by { assert Pow2(4) == 16; }
    Pow2Add(8, 8);
    Pow2Add(16, 7);
    assert Pow2(7) == 128 by { assert Pow2(3) == 8; }
  }

  predicate IsNaN(bits: Bits) {
    BiasedExponent(bits) == 255 && Fraction(bits) != 0
  }

  predicate IsInfinite(bits: Bits) {
    BiasedExponent(bits) == 255 && Fraction(bits) == 0
  }

  predicate IsFinite(bits: Bits) {
    BiasedExponent(bits) < 255
  }

  // ---------------------------------------------------------------- the number a pattern denotes

  /** Every finite binary32 is a multiple of the smallest subnormal, 2^-149. */
  const ULPS_PER_UNIT: nat := Pow2(149)

  /** The magnitude as a count of 2^-149. */
  function Ulps(bits: Bits): nat {
    var e := BiasedExponent(bits);
    if e == 0 then Fraction(bits) else (FRACTION_LIMIT + Fraction(bits)) * Pow2(e - 1)
  }

  function WithSign(negative: bool, n: int): int {
    if negative then -n else n
  }

  function SignedUlps(bits: Bits): int {
    WithSign(Negative(bits), Ulps(bits))
  }

  /** The real number denoted by a finite pattern (IEEE 754, section 3.4). */
  function Value(bits: Bits): real {
    SignedUlps(bits) as real / ULPS_PER_UNIT as real
  }

  function Clamp(n: int): int {
    if n < I32_MIN then I32_MIN else if n > I32_MAX then I32_MAX else n
  }

  // ---------------------------------------------------------------- the operation

  /** The significand with its sign, as the shift branch builds it. */
  function SignedSignificand(bits: Bits): (r: int)
    ensures -0x100_0000 < r < 0x100_0000
  {
    WithSign(Negative(bits), FRACTION_LIMIT + Fraction(bits))
  }

  /** Arithmetic shift right. */
  function ShiftRight(r: int, shift: nat): int {
    r / Pow2(shift)
  }

  /** `value as i32`: truncates toward zero, saturates, and sends NaN to zero. */
  function AsI32(bits: Bits): int {
    if IsNaN(bits) then 0
    else if IsInfinite(bits) then if Negative(bits) then I32_MIN else I32_MAX
    else Clamp(WithSign(Negative(bits), Ulps(bits) / ULPS_PER_UNIT))
  }

  /** `round_f32`. */
  function RoundF32(bits: Bits): int {
    var biasedExponent := Shr(And(bits, EXP_BIT_MASK), SIGNIFICAND_WIDTH - 1);
    var shift := SIGNIFICAND_WIDTH - 2 + EXP_BIAS - biasedExponent;
    if 0 <= shift < SIZE then
      var significand := Or(And(bits, SIGNIF_BIT_MASK), SIGNIF_BIT_MASK + 1);
      ShiftRight(ShiftRight(WithSign(Negative(bits), significand), shift) + 1, 1)
    else AsI32(bits)
  }

  /** In terms of the fields: between exponents 118 and 149 the signed significand is shifted twice,
      elsewhere the number is truncated. */
  lemma RoundF32OfFields(bits: Bits)
    ensures var e := BiasedExponent(bits);
            RoundF32(bits) == if 118 <= e <= 149 then ShiftRight(ShiftRight(SignedSignificand(bits), 149 - e) + 1, 1)
                              else AsI32(bits)
  {
    FieldsAreMasked(bits);
  }

  // ---------------------------------------------------------------- rounding half up

  /** The floor of n/d + 1/2 in integers. */
  function HalfUp(n: int, d: nat): int
    requires d > 0
  {
    (2 * n + d) / (2 * d)
  }

  /** ... and in real numbers. */
  lemma HalfUpIsFloor(n: int, d: nat)
    requires d > 0
    ensures (n as real / d as real + 0.5).Floor == HalfUp(n, d)
  {
    var q, r := HalfUp(n, d), (2 * n + d) % (2 * d);
    var x := n as real / d as real + 0.5;
    assert 2 * n + d == 2 * d * q + r;
    assert 2.0 * d as real * x == (2 * n + d) as real by {
      assert d as real * (n as real / d as real) == n as real;
    }
    FloorBetween(x, q, 2 * d, r);
  }

  lemma FloorBetween(x: real, q: int, m: nat, r: nat)
    requires 0 <= r < m && m as real * x == (m * q + r) as real
    ensures x.Floor == q
  {
    var y := x - q as real;
    assert m as real * y == r as real;
    assert 0.0 <= y < 1.0;
  }

  /** Shifting, adding one and shifting once more rounds half up. */
  lemma {:induction false} ShiftRoundsHalfUp(r: int, shift: nat)
    ensures ShiftRight(ShiftRight(r, shift) + 1, 1) == HalfUp(r, Pow2(shift + 1))
    ensures ShiftRight(ShiftRight(r, shift) + 1, 1) == (r as real / Pow2(shift + 1) as real + 0.5).Floor
  {
    var p := Pow2(shift);
    assert Pow2(shift + 1) == 2 * p && Pow2(1) == 2;
    NestedHalf(r, p);
    CommonFactor(r + p, 2 * p, 2);
    assert 2 * (r + p) == 2 * r + 2 * p;
    HalfUpIsFloor(r, 2 * p);
  }

  /** (r/p + 1)/2 is (r + p)/2p, all rounded down. */
  lemma NestedHalf(r: int, p: nat)
    requires p > 0
    ensures (r / p + 1) / 2 == (r + p) / (2 * p)
  {
    var q, rest := r / p, r % p;
    assert r == p * q + rest;
    var h, odd := (q + 1) / 2, (q + 1) % 2;
    assert q + 1 == 2 * h + odd;
    assert r + p == 2 * p * h + (p * odd + rest) by {
      assert p * (q + 1) == p * (2 * h + odd);
    }
    DivisionIs(r + p, 2 * p, h, p * odd + rest);
  }

  /** A factor common to dividend and divisor cancels. */
  lemma CommonFactor(n: int, d: nat, k: nat)
    requires d > 0 && k > 0
    ensures k * d > 0 && (k * n) / (k * d) == n / d
  {
    var q, r := n / d, n % d;
    assert n == d * q + r;
    assert k * n == k * d * q + k * r by {
      assert k * (d * q + r) == k * d * q + k * r;
    }
    assert k * r < k * d;
    DivisionIs(k * n, k * d, q, k * r);
  }

  // ---------------------------------------------------------------- the three ranges of exponents

  lemma UlpsFactor(bits: Bits)
    requires BiasedExponent(bits) > 0
    ensures SignedUlps(bits) == Pow2(BiasedExponent(bits) - 1) * SignedSignificand(bits)
  {
    var k, m := Pow2(BiasedExponent(bits) - 1), FRACTION_LIMIT + Fraction(bits);
    assert k * -m == -(m * k);
  }

  /** Exponents 118 to 149: the shift branch rounds half up, and never leaves the i32 range. */
  lemma ShiftBranch(bits: Bits, unit: nat)
    requires 118 <= BiasedExponent(bits) <= 149
    requires unit == Pow2(BiasedExponent(bits) - 1) * Pow2(150 - BiasedExponent(bits)) > 0
    ensures RoundF32(bits) == Clamp(HalfUp(SignedUlps(bits), unit))
  {
    var e, r := BiasedExponent(bits), SignedSignificand(bits);
    RoundF32OfFields(bits);
    UlpsFactor(bits);
    ShiftRoundsHalfUp(r, 149 - e);
    HalfUpCommonFactor(r, Pow2(150 - e), Pow2(e - 1));
    HalfUpSmall(r, Pow2(150 - e));
  }

  lemma HalfUpCommonFactor(n: int, d: nat, k: nat)
    requires d > 0 && k > 0
    ensures k * d > 0 && HalfUp(k * n, k * d) == HalfUp(n, d)
  {
    CommonFactor(2 * n + d, 2 * d, k);
    assert k * (2 * n + d) == 2 * (k * n) + k * d;
    assert k * (2 * d) == 2 * (k * d);
  }

  lemma HalfUpSmall(r: int, d: nat)
    requires -0x100_0000 < r < 0x100_0000 && d > 0
    ensures -0x100_0000 <= HalfUp(r, d) <= 0x100_0000
  {
    var q := HalfUp(r, d);
    assert 2 * r + d == 2 * d * q + (2 * r + d) % (2 * d);
  }

  /** Exponents from 150: the number is whole, so truncating it is exact. */
  lemma WholeBranch(bits: Bits, whole: nat)
    requires 150 <= BiasedExponent(bits) < 255
    requires Ulps(bits) == ULPS_PER_UNIT * whole
    ensures RoundF32(bits) == Clamp(HalfUp(SignedUlps(bits), ULPS_PER_UNIT))
  {
    RoundF32OfFields(bits);
    WholeRounds(Negative(bits), Ulps(bits), ULPS_PER_UNIT, whole);
  }

  lemma WholeRounds(negative: bool, ulps: nat, d: nat, whole: nat)
    requires d > 0 && ulps == d * whole
    ensures WithSign(negative, ulps / d) == HalfUp(WithSign(negative, ulps), d)
  {
    DivisionIs(ulps, d, whole, 0);
    NegatedProduct(d, whole);
    HalfUpWhole(WithSign(negative, whole), d);
  }

  lemma UlpsWhole(bits: Bits)
    requires 150 <= BiasedExponent(bits)
    ensures Ulps(bits) == ULPS_PER_UNIT * ((FRACTION_LIMIT + Fraction(bits)) * Pow2(BiasedExponent(bits) - 150))
  {
    var e := BiasedExponent(bits);
    Pow2Add(e - 150, 149);
    Reorder(FRACTION_LIMIT + Fraction(bits), Pow2(e - 150), ULPS_PER_UNIT);
  }

  lemma Reorder(a: nat, b: nat, c: nat)
    ensures a * (b * c) == c * (a * b)
  {
  }

  lemma HalfUpWhole(whole: int, d: nat)
    requires d > 0
    ensures HalfUp(d * whole, d) == whole
  {
    assert 2 * (d * whole) + d == 2 * d * whole + d;
    DivisionIs(2 * (d * whole) + d, 2 * d, whole, d);
  }

  /** Exponents below 118: less than a half away from zero. */
  lemma TinyBranch(bits: Bits)
    requires BiasedExponent(bits) < 118
    ensures RoundF32(bits) == Clamp(HalfUp(SignedUlps(bits), ULPS_PER_UNIT))
  {
    RoundF32OfFields(bits);
    TinyUlps(bits);
    var d := ULPS_PER_UNIT;
    DivisionIs(Ulps(bits), d, 0, Ulps(bits));
    DivisionIs(2 * SignedUlps(bits) + d, 2 * d, 0, 2 * SignedUlps(bits) + d);
  }

  lemma {:induction false} Pow2Monotone(a: nat, b: nat)
    requires a <= b
    ensures Pow2(a) <= Pow2(b)
    decreases b
  {
    if a < b {
      Pow2Monotone(a, b - 1);
    }
  }

  lemma TinyUlps(bits: Bits)
    requires BiasedExponent(bits) < 118
    ensures 2 * Ulps(bits) < ULPS_PER_UNIT
  {
    var most := Pow2(116);
    assert Ulps(bits) < 0x100_0000 * most by {
      TinyFactor(bits);
    }
    assert ULPS_PER_UNIT == 0x2_0000_0000 * most by {
      Pow2Add(33, 116);
      Pow2Of33();
    }
  }

  lemma TinyFactor(bits: Bits)
    requires BiasedExponent(bits) < 118
    ensures Ulps(bits) < 0x100_0000 * Pow2(116)
  {
    var e, f := BiasedExponent(bits), Fraction(bits);
    if e == 0 {
      assert Pow2(116) > 0;
    } else {
      Pow2Monotone(e - 1, 116);
      ProductBelow(FRACTION_LIMIT + f, 0x100_0000, Pow2(e - 1), Pow2(116));
    }
  }

  lemma ProductBelow(a: nat, limit: nat, scale: nat, most: nat)
    requires a < limit && 0 < scale <= most
    ensures a * scale < limit * most
  {
    calc {
      a * scale;
    <= { assert a * (most - scale) >= 0; }
      a * most;
    <  { assert (limit - a) * most > 0; }
      limit * most;
    }
  }

  lemma Pow2Of33()
    ensures Pow2(33) == 0x2_0000_0000
  {
    assert Pow2(8) == 256 by { assert Pow2(4) == 16; }
    Pow2Add(8, 8);
    Pow2Add(16, 16);
    assert Pow2(33) == 2 * Pow2(32);
  }

  /** For every finite number the result is floor(x + 1/2) clamped to the i32 range, the
      infinities saturate, and NaN gives zero. */
  lemma RoundF32IsJavaRound(bits: Bits)
    ensures IsFinite(bits) ==> RoundF32(bits) == Clamp((Value(bits) + 0.5).Floor)
    ensures IsInfinite(bits) ==> RoundF32(bits) == if Negative(bits) then I32_MIN else I32_MAX
    ensures IsNaN(bits) ==> RoundF32(bits) == 0
  {
    RoundF32OfFields(bits);
    if IsFinite(bits) {
      HalfUpIsFloor(SignedUlps(bits), ULPS_PER_UNIT);
      if BiasedExponent(bits) < 118 {
        TinyBranch(bits);
      } else if BiasedExponent(bits) < 150 {
        Pow2Add(BiasedExponent(bits) - 1, 150 - BiasedExponent(bits));
        ShiftBranch(bits, ULPS_PER_UNIT);
      } else {
        UlpsWhole(bits);
        WholeBranch(bits, (FRACTION_LIMIT + Fraction(bits)) * Pow2(BiasedExponent(bits) - 150));
      }
    }
  }

  // ---------------------------------------------------------------- the numbers that patterns denote

  /** One is one. */
  lemma OneIsOne()
    ensures SignedUlps(0x3f80_0000) == ULPS_PER_UNIT && Value(0x3f80_0000) == 1.0
  {
    assert BiasedExponent(0x3f80_0000) == 127 && Fraction(0x3f80_0000) == 0;
    UnitFactors();
    DividedByItself(ULPS_PER_UNIT);
  }

  lemma UnitFactors()
    ensures FRACTION_LIMIT * Pow2(126) == ULPS_PER_UNIT
  {
    Powers();
    Pow2Add(23, 126);
  }

  lemma DividedByItself(n: nat)
    requires n > 0
    ensures n as real / n as real == 1.0
  {
  }

  /** The sign bit negates. */
  lemma SignNegates(bits: Bits)
    requires bits < SIGN_BIT
    ensures SignedUlps(bits + SIGN_BIT) == -SignedUlps(bits)
  {
    assert BiasedExponent(bits + SIGN_BIT) == BiasedExponent(bits);
    assert Fraction(bits + SIGN_BIT) == Fraction(bits);
  }

  /** One more in the exponent doubles. */
  lemma ExponentDoubles(bits: Bits)
    requires 0 < BiasedExponent(bits) < 254
    ensures SignedUlps(bits + FRACTION_LIMIT) == 2 * SignedUlps(bits)
  {
    NextExponent(bits);
    DoubleShift(FRACTION_LIMIT + Fraction(bits), BiasedExponent(bits));
  }

  lemma NextExponent(bits: Bits)
    requires BiasedExponent(bits) < 254
    ensures bits + FRACTION_LIMIT < 0x1_0000_0000 && BiasedExponent(bits + FRACTION_LIMIT) == BiasedExponent(bits) + 1
    ensures Fraction(bits + FRACTION_LIMIT) == Fraction(bits) && Negative(bits + FRACTION_LIMIT) == Negative(bits)
  {
  }

  /** The fraction adds that many parts of 2^23. */
  lemma FractionAdds(bits: Bits)
    requires 0 < BiasedExponent(bits)
    ensures FRACTION_LIMIT * SignedUlps(bits) == (FRACTION_LIMIT + Fraction(bits)) * SignedUlps(bits - Fraction(bits))
  {
    WithoutFraction(bits);
    SignedProducts(Negative(bits), FRACTION_LIMIT, FRACTION_LIMIT + Fraction(bits), Pow2(BiasedExponent(bits) - 1));
  }

  lemma WithoutFraction(bits: Bits)
    ensures var start := bits - Fraction(bits);
            start >= 0 && BiasedExponent(start) == BiasedExponent(bits) && Fraction(start) == 0
            && Negative(start) == Negative(bits)
  {
  }

  lemma SignedProducts(negative: bool, a: nat, m: nat, p: nat)
    ensures a * WithSign(negative, m * p) == m * WithSign(negative, a * p)
  {
    Reorder(a, m, p);
    Reorder(m, a, p);
    NegatedProduct(a, m * p);
    NegatedProduct(m, a * p);
  }

  /** Up to the first normal number there are the multiples of the smallest one. */
  lemma SubnormalsAreMultiples(bits: Bits)
    requires bits <= FRACTION_LIMIT
    ensures SignedUlps(bits) == bits
  {
    assert bits == FRACTION_LIMIT ==> BiasedExponent(bits) == 1 && Fraction(bits) == 0;
  }

  /** Above the numbers there is one infinity of each sign, and then NaN. */
  lemma PatternKinds(bits: Bits)
    ensures IsInfinite(bits) <==> bits == 0x7f80_0000 || bits == 0xff80_0000
    ensures IsNaN(bits) <==> 0x7f80_0000 < bits < 0x8000_0000 || 0xff80_0000 < bits
    ensures IsFinite(bits) <==> bits < 0x7f80_0000 || 0x8000_0000 <= bits < 0xff80_0000
  {
  }

  /** The bounds in numbers. */
  lemma ClampMeans(n: int)
    ensures -2_147_483_648 <= Clamp(n) <= 2_147_483_647
    ensures -2_147_483_648 <= n <= 2_147_483_647 ==> Clamp(n) == n
    ensures n > 2_147_483_647 ==> Clamp(n) == 2_147_483_647
    ensures n < -2_147_483_648 ==> Clamp(n) == -2_147_483_648
  {
  }

  /** What is not a number that fits: the infinities go to the bounds, NaN to zero. */
  lemma RoundF32Saturates(bits: Bits)
    ensures RoundF32(0x7f80_0000) == 2_147_483_647 && RoundF32(0xff80_0000) == -2_147_483_648
    ensures 0x7f80_0000 < bits < 0x8000_0000 || 0xff80_0000 < bits ==> RoundF32(bits) == 0
  {
    PatternKinds(bits);
    PatternKinds(0x7f80_0000);
    PatternKinds(0xff80_0000);
    RoundF32IsJavaRound(bits);
    RoundF32IsJavaRound(0x7f80_0000);
    RoundF32IsJavaRound(0xff80_0000);
  }
}
