/**
 The ordinary demand over integers: the host's exact rational and the firmware's single
 wide ratio round to the same number of codes.
 */
module Demand {
  import opened Words
  import opened Rounding
  import opened Controller

  const GAIN_NUMERATOR: int := 7_211_256_926_616_129
  const ORDINARY_DENOMINATOR: int := 21_600 * 2_500_000_000_000

  /** Rounding a rational does not depend on the fraction chosen for it. */
  lemma RealRounding(n: int, d: int)
    requires d > 0
    ensures RoundReal(n as real / d as real) == RoundRatio(n, d)
  {
    RoundIsOdd(n, d);
    if n >= 0 {
      RealRoundingUp(n, d);
    } else {
      RealRoundingUp(-n, d);
      NegativeQuotient(n, d);
    }
  }

  lemma NegativeQuotient(n: int, d: int)
    requires d > 0 && n < 0
    ensures n as real / d as real < 0.0
    ensures (-n) as real / d as real == -(n as real / d as real)
  {
    var v := n as real / d as real;
    assert v * d as real == n as real;
  }

  lemma RealRoundingUp(n: int, d: int)
    requires d > 0 && n >= 0
    ensures n as real / d as real >= 0.0
    ensures (n as real / d as real + 0.5).Floor == (2 * n + d) / (2 * d)
  {
    var v := n as real / d as real;
    assert v * d as real == n as real;
    var q := (2 * n + d) / (2 * d);
    var r := (2 * n + d) % (2 * d);
    assert 2 * n + d == q * (2 * d) + r;
    FloorBracket(v + 0.5, d, q, r);
  }

  lemma FloorBracket(x: real, d: int, q: int, r: int)
    requires d > 0 && 0 <= r < 2 * d
    requires x * (2 * d) as real == (q * (2 * d) + r) as real
    ensures x.Floor == q
  {
    var e := (2 * d) as real;
    assert (q * (2 * d) + r) as real == q as real * e + r as real;
    assert (x - q as real) * e == r as real;
    assert 0.0 <= r as real < e;
    ScaleBracket(x - q as real, r as real, e);
  }

  lemma ScaleBracket(y: real, r: real, e: real)
    requires 0.0 <= r < e && y * e == r
    ensures 0.0 <= y < 1.0
  {
    if y < 0.0 {
      PositiveProduct(-y, e);
    }
    if y > 1.0 {
      PositiveProduct(y - 1.0, e);
    }
  }

  lemma PositiveProduct(a: real, b: real)
    requires a > 0.0 && b > 0.0
    ensures a * b > 0.0
  {
  }

  /** The host's demand is the firmware's ratio. */
  lemma DemandIsRatio(o: Observation, phaseEnabled: bool)
    ensures var centre := FrequencyCentre(o) + if phaseEnabled then PhaseCentre(o) else 0;
            CombinedDemand(o, phaseEnabled) == (centre * GAIN_NUMERATOR) as real / ORDINARY_DENOMINATOR as real
    ensures FrequencyDemand(o) == (FrequencyCentre(o) * GAIN_NUMERATOR) as real / ORDINARY_DENOMINATOR as real
  {
  }

  /** The ordinary limited delta of a centre, in the firmware's integer terms. */
  function LimitedRatio(s: State, centre: int): Limited {
    var rounded := RoundRatio(centre * GAIN_NUMERATOR, ORDINARY_DENOMINATOR);
    var step := Clamp(rounded, -s.policy.maximumStep, s.policy.maximumStep);
    var requested := Clamp(s.appliedCode + step, s.policy.minimumCode, s.policy.maximumCode);
    Limited(requested - s.appliedCode, step != rounded, requested != s.appliedCode + step)
  }

  lemma LimitedDeltaIsRatio(s: State, o: Observation, phaseEnabled: bool)
    ensures LimitedDelta(s, CombinedDemand(o, phaseEnabled))
            == LimitedRatio(s, FrequencyCentre(o) + if phaseEnabled then PhaseCentre(o) else 0)
    ensures LimitedDelta(s, FrequencyDemand(o)) == LimitedRatio(s, FrequencyCentre(o))
  {
    hide RoundReal, RoundRatio, CombinedDemand, FrequencyDemand;
    var centre := FrequencyCentre(o) + if phaseEnabled then PhaseCentre(o) else 0;
    DemandIsRatio(o, phaseEnabled);
    RealRounding(centre * GAIN_NUMERATOR, ORDINARY_DENOMINATOR);
    RealRounding(FrequencyCentre(o) * GAIN_NUMERATOR, ORDINARY_DENOMINATOR);
  }

  /** Edges weigh 36 units against the sign of their error; phase cycles weigh one, clipped to one edge. */
  lemma CentreMeans(o: Observation)
    ensures FrequencyCentre(o) == -36 * o.edgeError && -36 <= PhaseCentre(o) <= 36
    ensures -36 <= o.phaseCycles <= 36 ==> PhaseCentre(o) == -o.phaseCycles
    ensures o.phaseCycles > 36 ==> PhaseCentre(o) == -36
    ensures o.phaseCycles < -36 ==> PhaseCentre(o) == 36
  {
  }

  /** A movement one decision may ask for: one step at most, and within the code range. */
  predicate Admissible(s: State, delta: int) {
    && -s.policy.maximumStep <= delta <= s.policy.maximumStep
    && s.policy.minimumCode <= s.appliedCode + delta <= s.policy.maximumCode
  }

  /**
   The ordinary delta is the admissible movement nearest to the rounded demand, and the flags
   say which limit kept it from being that demand.
   */
  lemma LimitedRatioIsNearest(s: State, centre: int, other: int)
    requires s.policy.maximumStep > 0 && s.policy.minimumCode <= s.appliedCode <= s.policy.maximumCode
    requires Admissible(s, other)
    ensures var demand, r := RoundRatio(centre * 7_211_256_926_616_129, 54_000_000_000_000_000),
            LimitedRatio(s, centre);
            && Admissible(s, r.delta) && Abs(demand - r.delta) <= Abs(demand - other)
            && (r.stepLimited <==> Abs(demand) > s.policy.maximumStep)
            && (!r.stepLimited && !r.rangeClamped ==> r.delta == demand)
            && (r.rangeClamped <==> !Admissible(s, Clamp(demand, -s.policy.maximumStep, s.policy.maximumStep)))
  {
    hide RoundRatio;
  }
}
