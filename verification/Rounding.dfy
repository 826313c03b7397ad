/**
 Exact rounding over the wide integers: the ratio primitive, the two conversions that
 avoid forming a large product, and the one integer specification they share.
 */
module Rounding {
  import opened Words
  import opened WideArithmetic

  const CONVERSION_DENOMINATOR: int := 4680182727
  /** 625 * 10^18, too wide for one limb. */
  const CONVERSION_NUMERATOR: int := 625_000_000_000_000_000_000
  const CONVERSION_NUMERATOR_LIMBS: Wide := Wide(33, 16257445567584796672, false)
  const MAXIMUM_CENTRE_LIMBS: Wide := Wide(18, 36, false)
  const MAXIMUM_CENTRE: int := 332_041_393_326_771_929_124

  // ---- specification -----------------------------------------------------------------

  /** The ratio rounded to an integer, as the host controller computes it. */
  function RoundRatio(numerator: int, denominator: int): int
    requires denominator > 0
  {
    var rounded := (2 * Abs(numerator) + denominator) / (2 * denominator);
    if numerator >= 0 then rounded else -rounded
  }

  /** `q` is a nearest integer to n/d, and on a tie the one further from zero. */
  predicate IsNearest(n: int, d: int, q: int) {
    && 2 * Abs(n - q * d) <= d
    && (2 * Abs(n - q * d) == d ==> Abs(q * d) > Abs(n))
  }

  lemma RoundRatioIsNearest(n: int, d: int)
    requires d > 0
    ensures IsNearest(n, d, RoundRatio(n, d))
  {
    var m: int := Abs(n);
    var q := (2 * m + d) / (2 * d);
    var rest := (2 * m + d) % (2 * d);
    assert 2 * m + d == 2 * (q * d) + rest by {
      assert 2 * m + d == (2 * d) * q + rest;
    }
    assert (-q) * d == -(q * d);
  }

  lemma NearestIsUnique(n: int, d: int, q: int, q': int)
    requires d > 0 && IsNearest(n, d, q) && IsNearest(n, d, q')
    ensures q == q'
  {
    NearestNotBelow(n, d, q, q');
    NearestNotBelow(n, d, q', q);
  }

  lemma NearestNotBelow(n: int, d: int, q: int, q': int)
    requires d > 0 && IsNearest(n, d, q) && IsNearest(n, d, q')
    ensures q' <= q
  {
    assert q' * d == q * d + (q' - q) * d && (q + 1) * d == q * d + d;
    if q >= 0 {
      MulAtMost(0, q, d);
    } else {
      MulAtMost(q + 1, 0, d);
    }
    if q' >= q + 2 {
      MulAtMost(2, q' - q, d);
    }
  }

  /** Rounding commutes with adding whole multiples to a non-negative numerator. */
  lemma RoundAddMultiple(k: int, n: int, d: int)
    requires k >= 0 && n >= 0 && d > 0
    ensures k * d + n >= 0 && RoundRatio(k * d + n, d) == k + RoundRatio(n, d)
  {
    assert k * d >= 0;
    assert 2 * (k * d + n) + d == k * (2 * d) + (2 * n + d);
    DivAddMultiple(k, 2 * d, 2 * n + d);
  }

  /** Quotient and remainder decide the rounding of a non-negative ratio. */
  lemma RoundByRemainder(n: int, d: int, q: int, r: int)
    requires n >= 0 && d > 0 && n == q * d + r && 0 <= r < d
    ensures RoundRatio(n, d) == if 2 * r >= d then q + 1 else q
  {
    if 2 * r >= d {
      assert 2 * n + d == (q + 1) * (2 * d) + (2 * r - d);
      DivUnique(2 * n + d, 2 * d, q + 1, 2 * r - d);
    } else {
      assert 2 * n + d == q * (2 * d) + (2 * r + d);
      DivUnique(2 * n + d, 2 * d, q, 2 * r + d);
    }
  }

  lemma RoundIsOdd(n: int, d: int)
    requires d > 0
    ensures RoundRatio(-n, d) == -RoundRatio(n, d)
  {
    if n == 0 {
      DivUnique(d, 2 * d, 0, d);
    }
  }

  lemma RoundBounds(n: int, d: int)
    requires d > 0
    ensures Abs(RoundRatio(n, d)) <= Abs(n)
    ensures n >= 0 ==> RoundRatio(n, d) >= 0
    ensures n <= 0 ==> RoundRatio(n, d) <= 0
  {
    var m: int := Abs(n);
    var rounded := (2 * m + d) / (2 * d);
    DivNonNegative(2 * m + d, 2 * d);
    assert rounded * (2 * d) <= m * (2 * d) + d by {
      assert 2 * m + d == rounded * (2 * d) + (2 * m + d) % (2 * d);
      MulAtMost(1, d, 2 * m);
      assert d * (2 * m) == m * (2 * d);
    }
    MulCancel(rounded, m, d, 2 * d);
  }

  lemma RoundIsMonotone(n: int, n': int, d: int)
    requires d > 0 && n <= n'
    ensures RoundRatio(n, d) <= RoundRatio(n', d)
  {
    RoundBounds(n, d);
    RoundBounds(n', d);
    if n >= 0 {
      DivMonotone(2 * n + d, 2 * n' + d, 2 * d);
    } else if n' <= 0 {
      DivMonotone(-2 * n' + d, -2 * n + d, 2 * d);
    }
  }

  // ---- ratio over limbs ----------------------------------------------------------------

  method HalfCeiling(denominator: Wide) returns (half: Option<Wide>)
    requires Valid(denominator) && Value(denominator) > 0
    ensures half.Some? && Valid(half.value)
    ensures Value(half.value) == (Value(denominator) + 1) / 2
  {
    ValidFits(denominator);
    ZeroValue();
    hide Magnitude, Encode;
    var halves := Divide(denominator, FromI64(2));
    var (quotient, remainder) := halves.value;
    TruncationIsUnique(Value(denominator), 2, Value(quotient), Value(remainder),
                       Value(denominator) / 2, Value(denominator) % 2);
    half := Some(quotient);
    if Compare(remainder, ZERO) != 0 {
      half := CheckedAdd(quotient, FromI64(1));
    }
  }

  method RoundedUnsignedRatio(numerator: Wide, denominator: Wide) returns (rounded: Option<Wide>)
    ensures rounded == if Valid(numerator) && Valid(denominator) && Value(numerator) >= 0 && Value(denominator) > 0
                       then Checked(RoundRatio(Value(numerator), Value(denominator))) else None
    ensures Valid(numerator) && Valid(denominator) && Value(numerator) >= 0 && Value(denominator) > 0 ==> rounded.Some?
  {
    ZeroValue();
    hide Magnitude, Encode;
    if Less(numerator, ZERO) || !Less(ZERO, denominator) {
      return None;
    }
    var divided := Divide(numerator, denominator);
    if divided == None {
      return None;
    }
    var (quotient, remainder) := divided.value;
    var half := HalfCeiling(denominator);
    ghost var n, d, q, r := Value(numerator), Value(denominator), Value(quotient), Value(remainder);
    RoundByRemainder(n, d, q, r);
    RoundBounds(n, d);
    ValidIsCanonical(numerator);
    ValidIsCanonical(quotient);
    if !Less(remainder, half.value) {
      rounded := CheckedAdd(quotient, FromI64(1));
    } else {
      rounded := Some(quotient);
    }
  }

  /** Rounds the ratio half away from zero, refusing exactly the invalid or non-positive denominators. */
  method RoundWideRatio(numerator: Wide, denominator: Wide) returns (rounded: Option<Wide>)
    ensures rounded == if Valid(numerator) && Valid(denominator) && Value(denominator) > 0
                       then Checked(RoundRatio(Value(numerator), Value(denominator))) else None
    ensures Valid(numerator) && Valid(denominator) && Value(denominator) > 0 ==> rounded.Some?
  {
    ZeroValue();
    ValidFits(numerator);
    hide Magnitude, Encode;
    if !Less(ZERO, denominator) {
      return None;
    }
    var magnitude := Absolute(numerator);
    if magnitude == None {
      return None;
    }
    ValidIsCanonical(numerator);
    var result := RoundedUnsignedRatio(magnitude.value, denominator);
    if result == None {
      return None;
    }
    RoundIsOdd(Value(numerator), Value(denominator));
    RoundBounds(Value(numerator), Value(denominator));
    if Less(numerator, ZERO) {
      rounded := Negate(result.value);
    } else {
      rounded := result;
    }
  }

  // ---- centre to picocodes -------------------------------------------------------------

  /** The host's reduced quotient-and-remainder form. */
  function CentreToPicocodes(centre: int): int {
    var magnitude := Abs(centre);
    var quotient, remainder := magnitude / CONVERSION_DENOMINATOR, magnitude % CONVERSION_DENOMINATOR;
    var result := quotient * CONVERSION_NUMERATOR
                  + RoundRatio(remainder * CONVERSION_NUMERATOR, CONVERSION_DENOMINATOR);
    if centre >= 0 then result else -result
  }

  /** Splitting off the quotient loses nothing: the conversion is one rounded ratio of the whole centre. */
  lemma CentreConversionIsOneRounding(centre: int)
    ensures CentreToPicocodes(centre) == RoundRatio(centre * CONVERSION_NUMERATOR, CONVERSION_DENOMINATOR)
  {
    var m: int := Abs(centre);
    var q, r := m / CONVERSION_DENOMINATOR, m % CONVERSION_DENOMINATOR;
    assert m * CONVERSION_NUMERATOR
           == (q * CONVERSION_NUMERATOR) * CONVERSION_DENOMINATOR + r * CONVERSION_NUMERATOR;
    RoundAddMultiple(q * CONVERSION_NUMERATOR, r * CONVERSION_NUMERATOR, CONVERSION_DENOMINATOR);
    RoundIsOdd(m * CONVERSION_NUMERATOR, CONVERSION_DENOMINATOR);
    assert (-m) * CONVERSION_NUMERATOR == -(m * CONVERSION_NUMERATOR);
  }

  lemma CentreConversionIsOdd(centre: int)
    ensures CentreToPicocodes(-centre) == -CentreToPicocodes(centre)
  {
    CentreConversionIsOneRounding(centre);
    CentreConversionIsOneRounding(-centre);
    RoundIsOdd(centre * CONVERSION_NUMERATOR, CONVERSION_DENOMINATOR);
  }

  lemma CentreConversionIsMonotone(c: int, c': int)
    requires c <= c'
    ensures CentreToPicocodes(c) <= CentreToPicocodes(c')
  {
    CentreConversionIsOneRounding(c);
    CentreConversionIsOneRounding(c');
    RoundIsMonotone(c * CONVERSION_NUMERATOR, c' * CONVERSION_NUMERATOR, CONVERSION_DENOMINATOR);
  }

  /** Every intermediate of the conversion stays in the wide domain. */
  lemma CentreConversionFits(m: int)
    requires 0 <= m <= MAXIMUM_CENTRE
    ensures var q, r := m / CONVERSION_DENOMINATOR, m % CONVERSION_DENOMINATOR;
            && Fits(m)
            && 0 <= q * CONVERSION_NUMERATOR <= MAXIMUM / 4
            && 0 <= r * CONVERSION_NUMERATOR <= MAXIMUM / 4
            && 0 <= RoundRatio(r * CONVERSION_NUMERATOR, CONVERSION_DENOMINATOR) <= MAXIMUM / 4
  {
    RoundBounds(m % CONVERSION_DENOMINATOR * CONVERSION_NUMERATOR, CONVERSION_DENOMINATOR);
  }

  lemma ConversionLimbs()
    ensures Valid(MAXIMUM_CENTRE_LIMBS) && Value(MAXIMUM_CENTRE_LIMBS) == MAXIMUM_CENTRE
    ensures Valid(CONVERSION_NUMERATOR_LIMBS) && Value(CONVERSION_NUMERATOR_LIMBS) == CONVERSION_NUMERATOR
  {
  }

  /** The conversion of a non-negative centre. */
  method ConvertMagnitude(input: Wide) returns (result: Option<Wide>)
    requires Valid(input) && 0 <= Value(input) <= MAXIMUM_CENTRE
    ensures result.Some? && Valid(result.value) && Value(result.value) == CentreToPicocodes(Value(input))
  {
    ghost var m := Value(input);
    CentreConversionFits(m);
    ConversionLimbs();
    hide Magnitude, Encode, RoundRatio;
    var denominator := FromI64(CONVERSION_DENOMINATOR);
    var divided := Divide(input, denominator);
    var (quotient, remainder) := divided.value;
    TruncationIsUnique(m, CONVERSION_DENOMINATOR, Value(quotient), Value(remainder),
                       m / CONVERSION_DENOMINATOR, m % CONVERSION_DENOMINATOR);
    hide Truncates;
    var quotientTerm := CheckedMultiply(quotient, CONVERSION_NUMERATOR_LIMBS);
    var remainderNumerator := CheckedMultiply(remainder, CONVERSION_NUMERATOR_LIMBS);
    var remainderTerm := RoundedUnsignedRatio(remainderNumerator.value, denominator);
    result := CheckedAdd(quotientTerm.value, remainderTerm.value);
  }

  /** The firmware's conversion never leaves the wide domain, whatever the allowed centre. */
  method CentreToPicocodesWide(centre: Wide) returns (picocodes: Option<Wide>)
    ensures picocodes == if Valid(centre) && Abs(Value(centre)) <= MAXIMUM_CENTRE
                         then Checked(CentreToPicocodes(Value(centre))) else None
    ensures Valid(centre) && Abs(Value(centre)) <= MAXIMUM_CENTRE ==> picocodes.Some?
  {
    ZeroValue();
    ConversionLimbs();
    ValidFits(centre);
    hide Magnitude, Encode;
    var input := Absolute(centre);
    if input == None || Less(MAXIMUM_CENTRE_LIMBS, input.value) {
      return None;
    }
    var result := ConvertMagnitude(input.value);
    CentreConversionIsOdd(Value(centre));
    ValidFits(result.value);
    ValidIsCanonical(result.value);
    hide CentreToPicocodes;
    if Less(centre, ZERO) {
      picocodes := Negate(result.value);
    } else {
      picocodes := result;
    }
  }

  // ---- weighted residual ---------------------------------------------------------------

  /** A prefix `p` of the residual, times the weight, in units of the total weight. */
  ghost predicate Weighed(p: int, weight: int, total: int, quotient: int, remainder: int) {
    p * weight == quotient * total + remainder && remainder >= 0
  }

  lemma WeighedStart(weight: int, total: int)
    ensures Weighed(0, weight, total, 0, 0)
  {
  }

  lemma WeighedDouble(p: int, weight: int, total: int, quotient: int, remainder: int)
    requires Weighed(p, weight, total, quotient, remainder)
    ensures Weighed(2 * p, weight, total, 2 * quotient, 2 * remainder)
  {
    assert (2 * p) * weight == 2 * (p * weight) && (2 * quotient) * total == 2 * (quotient * total);
  }

  lemma WeighedAddOne(p: int, weight: int, total: int, quotient: int, remainder: int)
    requires Weighed(p, weight, total, quotient, remainder) && weight >= 0
    ensures Weighed(p + 1, weight, total, quotient, remainder + weight)
  {
    assert (p + 1) * weight == p * weight + weight;
  }

  lemma WeighedCarry(p: int, weight: int, total: int, quotient: int, remainder: int)
    requires Weighed(p, weight, total, quotient, remainder) && remainder >= total
    ensures Weighed(p, weight, total, quotient + 1, remainder - total)
  {
    assert (quotient + 1) * total == quotient * total + total;
  }

  lemma WeighedBound(p: int, weight: int, total: int, quotient: int, remainder: int)
    requires Weighed(p, weight, total, quotient, remainder)
    requires 0 <= weight <= total && total > 0 && p >= 0
    ensures quotient <= p
    ensures quotient == p ==> remainder == 0
  {
    assert p * weight <= p * total by {
      MulAtMost(weight, total, p);
      assert weight * p == p * weight && total * p == p * total;
    }
    MulCancel(quotient, p, 0, total);
  }

  lemma WeighedEnd(p: int, weight: int, total: int, quotient: int, remainder: int)
    requires Weighed(p, weight, total, quotient, remainder)
    requires 0 <= weight <= total && total > 0 && p >= 0 && remainder < total
    ensures p * weight >= 0
    ensures RoundRatio(p * weight, total) == if 2 * remainder >= total then quotient + 1 else quotient
    ensures RoundRatio(p * weight, total) <= p
  {
    assert p * weight >= 0;
    RoundByRemainder(p * weight, total, quotient, remainder);
    WeighedBound(p, weight, total, quotient, remainder);
  }

  /** Round `bit` of the loop stays in the wide domain: twice the remainder, and the weight where the bit is set. */
  predicate RoundFits(residual: int, weight: int, total: int, bit: nat)
    requires total > 0
  {
    var prefix, odd := residual / Pow2(bit + 1), residual / Pow2(bit) % 2;
    2 * (prefix * weight % total) + (if odd != 0 then weight else 0) <= MAXIMUM
  }

  ghost predicate AllRoundsFit(residual: int, weight: int, total: int, low: int)
    requires total > 0
  {
    forall bit: nat :: low <= bit < 64 ==> RoundFits(residual, weight, total, bit)
  }

  /** Up to a third of the domain every round fits. */
  lemma ThirdAlwaysFits(residual: int, weight: int, total: int)
    requires 0 <= weight <= total && 0 < 3 * total <= MAXIMUM
    ensures AllRoundsFit(residual, weight, total, 0)
  {
    hide Pow2;
  }

  /** Above the highest bit the prefix is empty. */
  lemma {:induction false} NoRounds(residual: int, weight: int, total: int, low: nat)
    requires residual >= 0 && total > 0 && low <= 64 && residual / Pow2(low) == 0
    ensures AllRoundsFit(residual, weight, total, low)
    decreases 64 - low
  {
    hide Pow2, RoundFits;
    if low < 64 {
      PrefixRound(residual, low);
      EmptyRound(residual, weight, total, low);
      NoRounds(residual, weight, total, low + 1);
    }
  }

  lemma EmptyRound(residual: int, weight: int, total: int, bit: nat)
    requires total > 0 && residual / Pow2(bit) == 0 && residual / Pow2(bit + 1) == 0
    ensures RoundFits(residual, weight, total, bit)
  {
    hide Pow2;
    DivUnique(0, total, 0, 0);
    assert 0 * weight == 0;
  }

  lemma OneRoundLess(residual: int, weight: int, total: int, bit: nat)
    requires total > 0 && bit < 64 && AllRoundsFit(residual, weight, total, bit + 1)
    ensures AllRoundsFit(residual, weight, total, bit) <==> RoundFits(residual, weight, total, bit)
    ensures AllRoundsFit(residual, weight, total, 0) ==> RoundFits(residual, weight, total, bit)
  {
    hide RoundFits;
  }

  /** In terms of what the loop holds. */
  lemma RoundFitsHere(residual: int, weight: int, total: int, bit: nat, quotient: int, remainder: int)
    requires total > 0 && Weighed(residual / Pow2(bit + 1), weight, total, quotient, remainder) && remainder < total
    ensures RoundFits(residual, weight, total, bit)
            <==> 2 * remainder + (if residual / Pow2(bit) % 2 != 0 then weight else 0) <= MAXIMUM
  {
    hide Pow2;
    DivUnique(residual / Pow2(bit + 1) * weight, total, quotient, remainder);
  }

  method HighestBit(residual: U64) returns (highest: int)
    ensures -1 <= highest < 64 && residual / Pow2(highest + 1) == 0
  {
    highest := -1;
    var bit := 63;
    Pow2Word();
    while bit >= 0
      invariant -1 <= bit < 64 && highest == -1
      invariant residual / Pow2(bit + 1) == 0
    {
      if residual / Pow2(bit) != 0 {
        return bit;
      }
      bit := bit - 1;
    }
  }

  lemma PrefixRound(residual: int, bit: nat)
    requires residual >= 0
    ensures residual / Pow2(bit) == 2 * (residual / Pow2(bit + 1)) + residual / Pow2(bit) % 2
    ensures 0 <= residual / Pow2(bit) <= residual
  {
    var p := Pow2(bit);
    DivDiv(residual, p, 2);
    DivNonNegative(residual, p);
  }

  /**
   Rounds residual * weight / total without forming the product, one residual bit at a
   time.  It answers exactly when the weights are in order and no round leaves the wide
   domain, and then the answer is exact and at most the residual.
   */
  method WeightedResidual(residual: U64, weight: Wide, total: Wide) returns (rounded: Option<U64>)
    requires Valid(weight) && Valid(total)
    ensures rounded.Some? <==> && 0 <= Value(weight) <= Value(total) && 0 < Value(total)
                               && AllRoundsFit(residual, Value(weight), Value(total), 0)
    ensures rounded.Some? ==> rounded.value == RoundRatio(residual * Value(weight), Value(total))
    ensures rounded.Some? ==> rounded.value <= residual
  {
    ghost var w, t := Value(weight), Value(total);
    ZeroValue();
    hide Magnitude, Encode, Pow2, Weighed, RoundRatio, RoundFits, AllRoundsFit;
    if Compare(total, ZERO) == 0 || Less(weight, ZERO) || Less(total, weight) {
      return None;
    }
    var quotient: U64 := 0;
    var remainder := ZERO;
    var highest := HighestBit(residual);
    var bit := highest;
    WeighedStart(w, t);
    NoRounds(residual, w, t, highest + 1);
    while bit >= 0
      invariant -1 <= bit < 64 && Valid(remainder) && Value(remainder) < t
      invariant Weighed(residual / Pow2(bit + 1), w, t, quotient, Value(remainder))
      invariant AllRoundsFit(residual, w, t, bit + 1)
    {
      ghost var p := residual / Pow2(bit + 1);
      PrefixRound(residual, bit);
      PrefixRound(residual, bit + 1);
      WeighedBound(p, w, t, quotient, Value(remainder));
      WeighedDouble(p, w, t, quotient, Value(remainder));
      WeighedSign(p, w, t, quotient, Value(remainder));
      RoundFitsHere(residual, w, t, bit, quotient, Value(remainder));
      OneRoundLess(residual, w, t, bit);
      if quotient > (WORD - 1) / 2 {
        return None;
      }
      quotient := quotient * 2;
      p := 2 * p;
      var doubled := CheckedAdd(remainder, remainder);
      if doubled == None {
        return None;
      }
      remainder := doubled.value;
      if residual / Pow2(bit) % 2 != 0 {
        WeighedAddOne(p, w, t, quotient, Value(remainder));
        var increased := CheckedAdd(remainder, weight);
        if increased == None {
          return None;
        }
        remainder := increased.value;
        p := p + 1;
      }
      while !Less(remainder, total)
        invariant Valid(remainder) && p == residual / Pow2(bit) && Weighed(p, w, t, quotient, Value(remainder))
        decreases Value(remainder)
      {
        WeighedCarry(p, w, t, quotient, Value(remainder));
        WeighedBound(p, w, t, quotient + 1, Value(remainder) - t);
        var reduced := CheckedSubtract(remainder, total);
        ValidIsCanonical(remainder);
        if reduced == None {
          return None;
        }
        remainder := reduced.value;
        quotient := quotient + 1;
      }
      bit := bit - 1;
    }
    var half := HalfCeiling(total);
    if half == None {
      return None;
    }
    WholePrefix(residual);
    WeighedEnd(residual, w, t, quotient, Value(remainder));
    if !Less(remainder, half.value) {
      quotient := quotient + 1;
    }
    rounded := Some(quotient);
  }

  lemma WeighedSign(p: int, weight: int, total: int, quotient: int, remainder: int)
    requires Weighed(p, weight, total, quotient, remainder)
    ensures remainder >= 0
  {
  }

  lemma WholePrefix(residual: int)
    ensures residual / Pow2(0) == residual
  {
  }
}
