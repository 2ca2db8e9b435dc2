/** The IEEE 754 binary32 layout (section 3.4 of IEEE 754-2008) seen through
    Java's float operations that the population engine uses: the primitive
    comparison `a > b`, Float.compare (what Float.compareTo and so the sort
    use) and the narrowing cast `(int) f`. No float arithmetic is modelled. */
module Binary32 {
  import opened Words

  /** Float.NEGATIVE_INFINITY: sign 1, exponent all ones, fraction 0. */
  const NegInf: Word := 0xFF80_0000
  /** Float.POSITIVE_INFINITY. */
  const PosInf: Word := 0x7F80_0000

  predicate IsNegative(w: Word) {
    w >= 0x8000_0000
  }

  /** The pattern without its sign bit. */
  function Magnitude(w: Word): (m: nat)
    ensures m < 0x8000_0000
  {
    if IsNegative(w) then w - 0x8000_0000 else w
  }

  /** Exponent all ones with a non-zero fraction. */
  predicate IsNaN(w: Word) {
    Magnitude(w) > 0x7F80_0000
  }

  /** Position of a non-NaN pattern on the number line: the order of
      binary32 values agrees with the order of their magnitudes, mirrored
      for negative patterns; +0.0 and -0.0 share position 0. */
  function NumericRank(w: Word): int
    requires !IsNaN(w)
  {
    if IsNegative(w) then 0 - Magnitude(w) else Magnitude(w)
  }

  /** Java's primitive `a > b` on floats: false whenever a NaN is involved,
      and +0.0 > -0.0 is false. */
  predicate Greater(a: Word, b: Word) {
    !IsNaN(a) && !IsNaN(b) && NumericRank(a) > NumericRank(b)
  }

  /** Rank under Float.compare: the numeric order, except that -0.0 comes
      before +0.0 and all NaNs are equal to one another and above +infinity. */
  function CompareRank(w: Word): int {
    if IsNaN(w) then 0x7F80_0001
    else if IsNegative(w) then 0 - Magnitude(w) - 1
    else Magnitude(w)
  }

  /** Float.compare(a, b): negative, zero or positive. Every NaN equals
      every other NaN and lies above every number, -0.0 lies below +0.0,
      and other numbers compare by their value. */
  function Compare(a: Word, b: Word): (r: int)
    ensures r < 0 <==> CompareRank(a) < CompareRank(b)
    ensures r == 0 <==> CompareRank(a) == CompareRank(b)
    ensures IsNaN(a) && IsNaN(b) ==> r == 0
    ensures IsNaN(a) && !IsNaN(b) ==> r > 0
    ensures !IsNaN(a) && !IsNaN(b) && NumericRank(a) < NumericRank(b) ==> r < 0
    ensures a == 0x8000_0000 && b == 0 ==> r < 0
  {
    if CompareRank(a) < CompareRank(b) then -1
    else if CompareRank(a) == CompareRank(b) then 0
    else 1
  }

  lemma CompareAntisymmetric(a: Word, b: Word)
    ensures Compare(a, b) < 0 <==> Compare(b, a) > 0
    ensures Compare(a, b) == 0 <==> Compare(b, a) == 0
  {
  }

  lemma CompareIsTotalOrderOnPatternsExceptNaN(a: Word, b: Word)
    requires !IsNaN(a) && !IsNaN(b) && Compare(a, b) == 0
    ensures a == b
  {
  }

  /** Float.floatToIntBits, which DataOutputStream.writeFloat writes: every
      NaN becomes the canonical NaN 0x7FC00000, other patterns are kept. */
  const CanonicalNaN: Word := 0x7FC0_0000

  function FloatToIntBits(w: Word): (r: Word)
    ensures IsNaN(r) <==> IsNaN(w)
    ensures IsNaN(w) ==> r == CanonicalNaN
    ensures !IsNaN(w) ==> r == w
  {
    if IsNaN(w) then CanonicalNaN else w
  }

  /** A pattern floatToIntBits keeps as it is. */
  predicate IsCanonical(w: Word) {
    !IsNaN(w) || w == CanonicalNaN
  }

  /** Canonicalising never changes how a float compares, and a canonical
      pattern is its own canonical form. */
  lemma FloatToIntBitsKeepsOrder(a: Word, b: Word)
    ensures Compare(FloatToIntBits(a), b) == Compare(a, b)
    ensures Greater(FloatToIntBits(a), b) == Greater(a, b)
    ensures IsCanonical(FloatToIntBits(a))
    ensures FloatToIntBits(a) == a <==> IsCanonical(a)
  {
  }

  /** Negative infinity is the only pattern that is below every other one
      under Float.compare, and every pattern except itself and the NaNs is
      greater than it under `>`. */
  lemma NegInfIsBottom(w: Word)
    ensures w != NegInf ==> CompareRank(NegInf) < CompareRank(w)
    ensures Greater(w, NegInf) <==> !IsNaN(w) && w != NegInf
    ensures !Greater(NegInf, w)
  {
  }

  /** The primitive comparison agrees with Float.compare wherever it holds. */
  lemma GreaterAgreesWithCompare(a: Word, b: Word)
    ensures Greater(a, b) ==> CompareRank(a) > CompareRank(b)
    ensures !IsNaN(a) && !IsNaN(b) && CompareRank(a) > CompareRank(b) ==>
              Greater(a, b) || (a == 0 && b == 0x8000_0000)
  {
  }

  lemma GreaterTransitive(a: Word, b: Word, c: Word)
    requires Greater(a, b) && Greater(b, c)
    ensures Greater(a, c)
  {
  }

  /** 2 to the power n. */
  function Pow2(n: nat): (r: nat)
    ensures r >= 1
  {
    if n == 0 then 1 else 2 * Pow2(n - 1)
  }

  lemma {:induction false} Pow2Monotone(m: nat, n: nat)
    requires m <= n
    ensures Pow2(m) <= Pow2(n)
    decreases n
  {
    if m < n {
      Pow2Monotone(m, n - 1);
    }
  }

  /** The biased exponent field. */
  function Exponent(w: Word): (e: nat)
    ensures e < 0x100
  {
    Magnitude(w) / 0x80_0000
  }

  /** The fraction field. */
  function Fraction(w: Word): nat {
    Magnitude(w) % 0x80_0000
  }

  /** The magnitude of a finite value, rounded toward zero to an integer. */
  function TruncatedMagnitude(w: Word): (t: nat)
    requires Exponent(w) < 0xFF
    ensures Exponent(w) < 127 ==> t == 0
    ensures Exponent(w) >= 127 ==> t >= 1
  {
    var e := Exponent(w);
    var significand := 0x80_0000 + Fraction(w);
    if e < 127 then 0
    else if e >= 150 then significand * Pow2(e - 150)
    else
      SignificandCoversShift(e, significand);
      significand / Pow2(150 - e)
  }

  lemma SignificandCoversShift(e: nat, significand: nat)
    requires 127 <= e < 150 && significand >= 0x80_0000
    ensures significand / Pow2(150 - e) >= 1
  {
    Pow2Monotone(150 - e, 23);
    Pow2Of23();
    QuotientAtLeastOne(significand, Pow2(150 - e));
  }

  lemma QuotientAtLeastOne(a: nat, d: nat)
    requires 0 < d <= a
    ensures a / d >= 1
  {
  }

  lemma Pow2Of23()
    ensures Pow2(23) == 0x80_0000
  {
    assert Pow2(3) == 8;
    assert Pow2(10) == 1024;
    assert Pow2(13) == 8192;
    assert Pow2(20) == 0x10_0000;
  }

  /** Java's narrowing cast `(int) f` (section 5.1.3 of the Java Language
      Specification): NaN becomes 0, other values are rounded toward zero
      and saturate at Integer.MIN_VALUE and Integer.MAX_VALUE. */
  function FloatToInt(w: Word): (r: Int32)
    ensures IsNaN(w) ==> r == 0
    ensures w == PosInf ==> r == MaxInt32
    ensures w == NegInf ==> r == MinInt32
    ensures !IsNaN(w) && Magnitude(w) < 0x3F80_0000 ==> r == 0
    ensures !IsNaN(w) && !IsNegative(w) ==> r >= 0
    ensures !IsNaN(w) && IsNegative(w) ==> r <= 0
  {
    if IsNaN(w) then 0
    else if Exponent(w) == 0xFF then (if IsNegative(w) then MinInt32 else MaxInt32)
    else
      var t := TruncatedMagnitude(w);
      if IsNegative(w) then (if t >= 0x8000_0000 then MinInt32 else 0 - t)
      else (if t > MaxInt32 then MaxInt32 else t)
  }

  /** The exact value of the magnitude of a finite pattern: the significand
      (with the hidden bit for normal numbers) scaled by 2^(exponent - 150),
      subnormal numbers taking the exponent 1. */
  function MagnitudeValue(w: Word): (v: real)
    requires Exponent(w) < 0xFF
    ensures v >= 0.0
  {
    var e := Exponent(w);
    var significand := if e == 0 then Fraction(w) else 0x80_0000 + Fraction(w);
    if e >= 150 then (significand * Pow2(e - 150)) as real
    else (significand as real) / (Pow2(150 - (if e == 0 then 1 else e)) as real)
  }

  /** The integer part of the magnitude: t <= |f| < t + 1. */
  lemma TruncatedMagnitudeIsFloor(w: Word)
    requires Exponent(w) < 0xFF
    ensures var t := TruncatedMagnitude(w);
      t as real <= MagnitudeValue(w) < (t + 1) as real
  {
    var e := Exponent(w);
    var t := TruncatedMagnitude(w);
    if e >= 150 {
    } else if e < 127 {
      var significand := if e == 0 then Fraction(w) else 0x80_0000 + Fraction(w);
      var shift := 150 - (if e == 0 then 1 else e);
      Pow2Monotone(24, shift);
      Pow2Of23();
      assert Pow2(24) == 2 * Pow2(23);
      assert significand < Pow2(shift);
      DivideBelowOne(significand, Pow2(shift));
    } else {
      var significand := 0x80_0000 + Fraction(w);
      var d := Pow2(150 - e);
      assert t == significand / d;
      DivideBetween(significand, d);
    }
  }

  lemma DivideBelowOne(a: nat, d: nat)
    requires a < d
    ensures 0.0 <= (a as real) / (d as real) < 1.0
  {
  }

  /** Integer division rounds the real quotient down. */
  lemma DivideBetween(a: nat, d: nat)
    requires d > 0
    ensures (a / d) as real <= (a as real) / (d as real) < (a / d + 1) as real
  {
    var q, m := a / d, a % d;
    assert a == q * d + m && 0 <= m < d;
    assert (a as real) == (q as real) * (d as real) + (m as real);
    assert (a as real) / (d as real) == (q as real) + (m as real) / (d as real);
    DivideBelowOne(m, d);
  }

  /** The cast rounds toward zero: below 2^31 in magnitude, |(int) f| is the
      integer part of |f| and the sign is kept; from 2^31 on it saturates. */
  lemma FloatToIntRoundsTowardZero(w: Word)
    requires !IsNaN(w) && Exponent(w) < 0xFF
    ensures var r := FloatToInt(w);
      && (MagnitudeValue(w) < 2147483648.0 && !IsNegative(w) ==>
            r as real <= MagnitudeValue(w) < (r + 1) as real)
      && (MagnitudeValue(w) < 2147483648.0 && IsNegative(w) ==>
            (-r) as real <= MagnitudeValue(w) < (-r + 1) as real)
      && (MagnitudeValue(w) >= 2147483648.0 ==> r == if IsNegative(w) then MinInt32 else MaxInt32)
  {
    TruncatedMagnitudeIsFloor(w);
  }
}
