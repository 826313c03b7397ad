/**
 The firmware engine: mutable fields, limb arithmetic, and transitions in the order the
 firmware takes them.  Each method is proved to make exactly the transition of `Firmware`,
 so no checked operation ever fails on a reachable state: the branch that reports an
 arithmetic overflow is never taken.
 */
module Engine {
  import opened Words
  import opened WideArithmetic
  import opened Rounding
  import opened Controller
  import opened Firmware
  import opened Invariant
  import opened Demand
  import opened Cases
  import C = Controller
  import F = Firmware

  // ---- demand over limbs -----------------------------------------------------------------

  method PhaseCentreUnits(phaseCycles: int) returns (phase: Wide)
    requires InI64(phaseCycles)
    ensures Valid(phase) && Value(phase) == Clamp(-phaseCycles, -36, 36)
  {
    hide Encode, Magnitude;
    var negated := Negate(FromI64(phaseCycles));
    if Less(negated.value, FromI64(-36)) {
      phase := FromI64(-36);
    } else if Less(FromI64(36), negated.value) {
      phase := FromI64(36);
    } else {
      phase := negated.value;
    }
  }

  method CentreUnits(o: Observation) returns (frequency: Wide, phase: Wide, combined: Wide)
    requires Typed(o)
    ensures Valid(frequency) && Value(frequency) == FrequencyCentre(o)
    ensures Valid(phase) && Value(phase) == PhaseCentre(o)
    ensures Valid(combined) && Value(combined) == Centre(o)
    ensures Abs(Value(frequency)) <= MAXIMUM_CENTRE && Abs(Value(combined)) <= MAXIMUM_CENTRE
  {
    hide Encode, Magnitude;
    CentreIsBounded(o);
    var product := CheckedMultiply(FromI64(-36), FromI64(o.edgeError));
    frequency := product.value;
    phase := PhaseCentreUnits(o.phaseCycles);
    var sum := CheckedAdd(frequency, phase);
    combined := sum.value;
  }

  method StrictSign(lower: Wide, upper: Wide) returns (sign: int)
    ensures sign == Sign(Value(lower), Value(upper))
  {
    hide Encode, Magnitude, Less;
    ZeroValue();
    sign := if Less(ZERO, lower) then 1 else if Less(upper, ZERO) then -1 else 0;
  }

  /** The interval of half a unit either side of a centre. */
  method Interval(centre: Wide) returns (lower: Wide, upper: Wide)
    requires Valid(centre) && Abs(Value(centre)) <= MAXIMUM_CENTRE
    ensures Valid(lower) && Value(lower) == Value(centre) - 18
    ensures Valid(upper) && Value(upper) == Value(centre) + 18
  {
    hide Encode, Magnitude;
    var difference := CheckedSubtract(centre, FromI64(18));
    var sum := CheckedAdd(centre, FromI64(18));
    lower, upper := difference.value, sum.value;
  }

  /** One wide ratio, limited by step and clamped by range. */
  method LimitedCodes(centre: Wide, policy: Policy, appliedCode: int) returns (result: Limited)
    requires Valid(centre) && Abs(Value(centre)) <= MAXIMUM_CENTRE
    requires PolicyAccepted(policy) && InRange(policy, appliedCode)
    ensures forall s: State :: s.policy == policy && s.appliedCode == appliedCode ==>
              result == LimitedRatio(s, Value(centre))
  {
    hide Encode, Magnitude, RoundRatio;
    var gain := FromU64(GAIN_NUMERATOR);
    var numerator := CheckedMultiply(centre, gain);
    var denominator := FromU64(ORDINARY_DENOMINATOR);
    var ratio := RoundWideRatio(numerator.value, denominator);
    var rounded := ratio.value;
    var limited := rounded;
    if Less(rounded, FromI64(-policy.maximumStep)) {
      limited := FromI64(-policy.maximumStep);
    } else if Less(FromI64(policy.maximumStep), rounded) {
      limited := FromI64(policy.maximumStep);
    }
    var step := ToI64(limited);
    var unclamped := appliedCode + step.value;
    var requested := if unclamped < policy.minimumCode then policy.minimumCode
                     else if unclamped > policy.maximumCode then policy.maximumCode else unclamped;
    result := Limited(requested - appliedCode, !Equal(limited, rounded), unclamped != requested);
  }

  /** Truncated division of non-negative numbers is the floor. */
  lemma TruncationIsFloor(n: int, d: int, q: int, r: int)
    requires Truncates(n, d, q, r) && n >= 0 && d > 0
    ensures q == n / d && q >= 0
  {
    TruncationIsUnique(n, d, q, r, n / d, n % d);
    DivNonNegative(n, d);
  }

  /** The whole codes that cannot carry the nearest edge past zero, or the step limit when that is smaller. */
  method UncrossedCodes(nearest: Wide, maximumStep: int) returns (cap: int)
    requires Valid(nearest) && 0 <= Value(nearest) <= MAXIMUM_CENTRE + 18 && 0 < maximumStep && InI32(maximumStep)
    ensures cap == Min(maximumStep, Value(nearest) * PICO / (21_600 * PLANT_GAIN))
  {
    hide Encode, Magnitude, Less;
    var numerator := CheckedMultiply(nearest, FromI64(PICO));
    var divided := Divide(numerator.value, FromI64(21_600 * PLANT_GAIN));
    var (quotient, remainder) := divided.value;
    TruncationIsFloor(Value(nearest) * PICO, 21_600 * PLANT_GAIN, Value(quotient), Value(remainder));
    hide Truncates;
    cap := maximumStep;
    if !Less(FromI64(maximumStep), quotient) {
      var raw := ToU64(quotient);
      cap := raw.value;
    }
  }

  method NoZeroCrossCap(policy: Policy, movement: int, centre: Wide, code: int) returns (cap: int)
    requires Valid(centre) && Abs(Value(centre)) <= MAXIMUM_CENTRE && PolicyAccepted(policy) && InU32(movement)
    ensures forall s: State :: s.policy == policy && s.movement == movement ==>
              cap == Cap(Bits32, s, Value(centre), code)
  {
    hide Encode, Magnitude, Less;
    var lower, upper := Interval(centre);
    var sign := StrictSign(lower, upper);
    if sign == 0 {
      return 0;
    }
    var nearest := lower;
    if sign < 0 {
      var negated := Negate(upper);
      nearest := negated.value;
    }
    cap := UncrossedCodes(nearest, policy.maximumStep);
    var remaining := if movement >= policy.maximumMovement then 0 else policy.maximumMovement - movement;
    if policy.maximumMovement != 0 && remaining < cap {
      cap := remaining;
    }
    var headroom := Headroom(Bits32, policy, sign, code);
    if headroom < cap {
      cap := headroom;
    }
    cap := if cap < 0 then 0 else cap;
  }

  /** The residual a maintenance application leaves, clamped to the debt limit. */
  method Residual(raw: Wide, delta: int, debt: Debt) returns (residual: int)
    requires Valid(raw) && Abs(Value(raw)) <= DEMAND_LIMIT && InI32(delta) && DebtBounded(debt)
    ensures residual == Clamp(Value(raw) + debt.Total() - delta * PICO, -DEBT_LIMIT, DEBT_LIMIT)
  {
    hide Encode, Magnitude, Less;
    var withFll := CheckedAdd(raw, FromI64(debt.fll));
    var total := CheckedAdd(withFll.value, FromI64(debt.pll));
    var applied := CheckedMultiply(FromI64(delta), FromI64(PICO));
    var exceeding := CheckedSubtract(total.value, applied.value);
    if Less(exceeding.value, FromI64(-DEBT_LIMIT)) {
      return -DEBT_LIMIT;
    }
    if Less(FromI64(DEBT_LIMIT), exceeding.value) {
      return DEBT_LIMIT;
    }
    var exact := ToI64(exceeding.value);
    residual := exact.value;
  }

  /** The magnitude of one demand with its debt. */
  method CandidateWeight(demand: Wide, tag: int) returns (weight: Wide)
    requires Valid(demand) && Abs(Value(demand)) <= 2 * DEMAND_LIMIT && Abs(tag) <= DEBT_LIMIT
    ensures Valid(weight) && Value(weight) == Abs(Value(demand) + tag)
  {
    hide Encode, Magnitude;
    var candidate := CheckedAdd(demand, FromI64(tag));
    var absolute := Absolute(candidate.value);
    weight := absolute.value;
  }

  /** The magnitudes of the two candidates, and their sum. */
  method CandidateWeights(fll: Wide, pll: Wide, debt: Debt) returns (fllWeight: Wide, pllWeight: Wide, total: Wide)
    requires Valid(fll) && Abs(Value(fll)) <= DEMAND_LIMIT && Valid(pll) && Abs(Value(pll)) <= 2 * DEMAND_LIMIT
    requires DebtBounded(debt)
    ensures Valid(fllWeight) && Value(fllWeight) == Abs(Value(fll) + debt.fll)
    ensures Valid(pllWeight) && Value(pllWeight) == Abs(Value(pll) + debt.pll)
    ensures Valid(total) && Value(total) == Value(fllWeight) + Value(pllWeight)
    ensures 3 * Value(total) <= MAXIMUM
  {
    hide Encode, Magnitude, Valid;
    fllWeight := CandidateWeight(fll, debt.fll);
    pllWeight := CandidateWeight(pll, debt.pll);
    var sum := CheckedAdd(fllWeight, pllWeight);
    total := sum.value;
  }

  /** Shares the residual by the two candidates' magnitudes, without forming the product. */
  method ShareResidual(residual: int, fll: Wide, pll: Wide, debt: Debt, ghost d: Decision) returns (shared: Debt)
    requires Valid(fll) && Value(fll) == d.fll && Valid(pll) && Value(pll) == d.pll && DemandBounded(d)
             && DebtBounded(debt)
    requires residual == Clamp(d.raw + debt.Total() - d.delta * PICO, -DEBT_LIMIT, DEBT_LIMIT)
    ensures shared == ResidualDebt(debt, d)
  {
    hide Encode, Magnitude, RoundRatio, Less, ResidualDebt, AllRoundsFit;
    ResidualDebtIs(debt, d, residual);
    ZeroValue();
    var fllWeight, pllWeight, totalWeight := CandidateWeights(fll, pll, debt);
    if Compare(fllWeight, ZERO) == 0 && Compare(pllWeight, ZERO) == 0 {
      return Debt(residual, 0);
    }
    var magnitude: int := Abs(residual);
    ThirdAlwaysFits(magnitude, Value(fllWeight), Value(totalWeight));
    var rounded := WeightedResidual(magnitude, fllWeight, totalWeight);
    ShareSign(residual, Value(fllWeight), Value(totalWeight));
    var fllMagnitude: int := rounded.value;
    var fllDebt := if residual < 0 then -fllMagnitude else fllMagnitude;
    shared := Debt(fllDebt, residual - fllDebt);
  }

  // ---- the engine ------------------------------------------------------------------------

  /** The immutable copy of a proposal that an application must return. */
  datatype Snapshot = Snapshot(sequence: int, delta: int, code: int, raw: Wide, fll: Wide, pll: Wide, maintenance: bool,
                               timestampS: int, ticks: int, projection: Projection)

  const NO_SNAPSHOT: Snapshot := Snapshot(0, 0, 0, ZERO, ZERO, ZERO, false, 0, 0, NO_PROJECTION)

  /** The snapshot holds the fields of a decision, its three demands in limbs. */
  ghost predicate Copies(p: Snapshot, d: Decision) {
    && p.sequence == d.sequence && p.delta == d.delta && p.code == d.code
    && Valid(p.raw) && Value(p.raw) == d.raw && Valid(p.fll) && Value(p.fll) == d.fll
    && Valid(p.pll) && Value(p.pll) == d.pll
    && p.maintenance == d.maintenance && p.ticks == d.ticks && p.projection == d.projection
  }

  /** Three slots holding the latest directions of a whole history. */
  ghost predicate Window(slots: seq<int>, count: nat, history: seq<int>) {
    && |slots| == 3 && count == (if |history| < 3 then |history| else 3)
    && slots[..count] == LastThree(history)
  }

  class RegulationEngine {
    var policy: Policy
    var appliedCode: int
    var dacEpoch: int
    var applicationCount: int
    var cumulativeMovement: int
    var lastApplication: Option<Stamp>
    var chatterOriginCode: int
    const directionHistory: array<int>
    var directionCount: nat
    var debt: Debt
    var persistence: Persistence
    var requestPending: bool
    var responsePending: bool
    var metadataHold: bool
    var metadataRequalified: bool
    var requalification: Requalification
    var failStaticReason: Option<Reason>
    var decisionSequence: int
    var currentTicks: int
    var pending: Snapshot
    /** Every applied direction, and the whole of the outstanding decision. */
    ghost var history: seq<int>
    ghost var pendingDecision: Decision

    ghost function View(): State
      reads this
    {
      State(policy, appliedCode, dacEpoch, applicationCount, cumulativeMovement, lastApplication, chatterOriginCode,
            history, debt, persistence,
            if requestPending then Some(Pending(pendingDecision, Stamp(pending.timestampS, pending.ticks))) else None,
            responsePending, metadataHold, metadataRequalified, requalification, failStaticReason, decisionSequence,
            currentTicks)
    }

    ghost predicate Represents()
      reads this, directionHistory
    {
      && directionHistory.Length == 3 && directionCount <= 3
      && Window(directionHistory[..], directionCount, history)
      && (requestPending ==> Copies(pending, pendingDecision))
    }

    ghost predicate Valid()
      reads this, directionHistory
    {
      Represents() && Holds(View())
    }

    /** The new state and the decision are those of an outcome. */
    ghost predicate Makes(out: Outcome, d: Decision)
      reads this, directionHistory
    {
      Represents() && View() == out.state && d == out.decision
    }

    constructor (policy: Policy, setupCode: int, setupEpoch: int)
      requires PolicyAccepted(policy) && InRange(policy, setupCode) && InU64(setupEpoch)
      ensures Valid() && fresh(directionHistory) && View() == InitialState(policy, setupCode, setupEpoch)
    {
      this.policy := policy;
      appliedCode, dacEpoch, applicationCount, cumulativeMovement := setupCode, setupEpoch, 0, 0;
      lastApplication, chatterOriginCode := None, setupCode;
      directionHistory, directionCount := new int[3], 0;
      debt, persistence := Debt(0, 0), NO_PERSISTENCE;
      requestPending, responsePending, metadataHold, metadataRequalified := false, false, false, false;
      requalification, failStaticReason, decisionSequence, currentTicks := NO_REQUALIFICATION, None, 0, 0;
      pending := NO_SNAPSHOT;
      history := [];
      new;
      InitialHolds(policy, setupCode, setupEpoch);
    }

    /** Engine initialisation: refuses an unusable policy, code or epoch. */
    static method Init(policy: Policy, setupCode: int, setupEpoch: int) returns (engine: RegulationEngine?)
      requires InI32(policy.maximumStep) && InI32(policy.minimumCode) && InI32(policy.maximumCode)
      requires InU64(policy.minimumCadenceS) && InU32(policy.maximumApplications) && InU32(policy.maximumMovement)
      requires InI32(setupCode) && InU64(setupEpoch)
      ensures engine != null <==> PolicyAccepted(policy) && InRange(policy, setupCode) && setupEpoch != 0
      ensures engine != null ==> fresh(engine) && fresh(engine.directionHistory) && engine.Valid()
      ensures engine != null ==> engine.View() == InitialState(policy, setupCode, setupEpoch)
    {
      if policy.maximumStep <= 0 || policy.minimumCode >= policy.maximumCode || policy.minimumCadenceS == 0
         || policy.minimumCadenceS > MAXIMUM_U64 / TICKS_PER_SECOND
         || setupCode < policy.minimumCode || setupCode > policy.maximumCode || setupEpoch == 0 {
        return null;
      }
      engine := new RegulationEngine(policy, setupCode, setupEpoch);
    }

    // ---- small transitions ---------------------------------------------------------------

    method ResetMaintenance(preserveDebt: bool)
      requires Represents()
      modifies `debt, `persistence
      ensures Represents() && View() == Reset(old(View()), preserveDebt)
    {
      hide Copies, Window;
      if !preserveDebt {
        debt := Debt(0, 0);
      }
      persistence := NO_PERSISTENCE;
    }

    method FailStatically(reason: Reason)
      requires Represents()
      modifies `failStaticReason, `requestPending, `responsePending, `pending
      ensures Represents() && View() == FailStatic(old(View()), reason)
    {
      hide Copies, Window;
      failStaticReason := Some(reason);
      CloseTransaction(false);
    }

    /** Drops the outstanding proposal, and says whether a response is now awaited. */
    method CloseTransaction(awaiting: bool)
      requires Represents()
      modifies `requestPending, `responsePending, `pending
      ensures Represents() && View() == old(View()).(pending := None, responsePending := awaiting)
    {
      hide Copies, Window;
      requestPending := false;
      ForgetPending();
      responsePending := awaiting;
    }

    method ForgetPending()
      requires Represents() && !requestPending
      modifies `pending
      ensures Represents() && View() == old(View())
    {
      hide Copies, Window;
      pending := NO_SNAPSHOT;
    }

    /** The gate after the loss of metadata. */
    method FreezeMetadata()
      requires Represents()
      modifies `metadataHold, `metadataRequalified, `requalification, `debt, `persistence
      ensures Represents() && View() == EnterHold(old(View()))
    {
      hide Copies, Window, Reset;
      metadataHold := true;
      ClearRequalification();
      ResetMaintenance(true);
    }

    method ClearRequalification()
      requires Represents()
      modifies `metadataRequalified, `requalification
      ensures Represents()
      ensures View() == old(View()).(metadataRequalified := false, requalification := NO_REQUALIFICATION)
    {
      hide Copies, Window;
      metadataRequalified := false;
      requalification := NO_REQUALIFICATION;
    }

    /** The decision record of the present state. */
    method Record(reason: Reason, delta: int, cap: int, raw: Wide, fll: Wide, pll: Wide, maintenance: bool,
                  projection: Projection) returns (decision: Decision)
      ensures decision
              == MakeDecision(View(), reason, delta, cap, Value(raw), Value(fll), Value(pll), maintenance, projection)
    {
      decision := Decision(decisionSequence, reason, delta, appliedCode + delta, cap, persistence.count, Value(raw),
                           Value(fll), Value(pll), debt.fll + debt.pll, maintenance, currentTicks, projection);
    }

    method Plain(reason: Reason) returns (decision: Decision)
      ensures decision == Decide0(View(), reason)
    {
      ZeroValue();
      decision := Record(reason, 0, 0, ZERO, ZERO, ZERO, false, NO_PROJECTION);
    }

    method Held(reason: Reason, cap: int, projection: Projection) returns (decision: Decision)
      ensures decision == HoldProjected(View(), reason, cap, projection).decision
    {
      ZeroValue();
      decision := Record(reason, 0, cap, ZERO, ZERO, ZERO, false, projection);
    }

    method FailPlain(reason: Reason) returns (decision: Decision)
      requires Represents()
      modifies `failStaticReason, `requestPending, `responsePending, `pending
      ensures Makes(Fail(old(View()), reason), decision)
    {
      FailStatically(reason);
      decision := Plain(reason);
    }

    method CadenceHeld(o: Observation) returns (held: bool, backward: bool)
      ensures held <==> CadenceStatus(View(), o) != Ready
      ensures backward <==> CadenceStatus(View(), o) == Backward
    {
      if !o.cadenceEligible {
        return true, false;
      }
      if lastApplication == None {
        return false, false;
      }
      if o.timestampTicks < lastApplication.value.ticks {
        return true, true;
      }
      return o.timestampTicks - lastApplication.value.ticks < policy.minimumCadenceS * TICKS_PER_SECOND, false;
    }

    /** Three reversals over the three remembered directions and the prospective one. */
    method Alternates(delta: int) returns (alternates: bool)
      requires Represents()
      ensures alternates <==> RepeatedAlternation(View(), delta)
    {
      var direction := if delta > 0 then 1 else -1;
      if directionCount < 3 {
        return false;
      }
      var reversals := 0;
      var previous := directionHistory[0];
      var index := 1;
      while index < 3
        invariant 1 <= index <= 3 && previous == directionHistory[index - 1]
        invariant reversals == Reversals(directionHistory[..index])
      {
        ReversalsAppend(directionHistory[..index], directionHistory[index]);
        assert directionHistory[..index + 1] == directionHistory[..index] + [directionHistory[index]];
        if previous != directionHistory[index] {
          reversals := reversals + 1;
        }
        previous := directionHistory[index];
        index := index + 1;
      }
      ReversalsAppend(directionHistory[..], direction);
      assert directionHistory[..3] == directionHistory[..] == LastThree(history);
      if previous != direction {
        reversals := reversals + 1;
      }
      alternates := reversals == 3;
    }

    method RememberDirection(delta: int)
      requires Represents()
      modifies this`directionCount, this`history, directionHistory
      ensures Represents() && View() == old(View()).(directions := old(history) + [Direction(delta)])
    {
      var direction := if delta > 0 then 1 else -1;
      ghost var slots := directionHistory[..];
      WindowAppend(slots, directionCount, history, direction);
      history := history + [direction];
      if directionCount < 3 {
        directionHistory[directionCount] := direction;
        directionCount := directionCount + 1;
        assert directionHistory[..] == slots[directionCount - 1 := direction];
        return;
      }
      directionHistory[0] := directionHistory[1];
      directionHistory[1] := directionHistory[2];
      directionHistory[2] := direction;
      assert directionHistory[..] == slots[1..] + [direction];
    }

    // ---- proposing -------------------------------------------------------------------------

    /** Stores the proposal and the snapshot an application must repeat. */
    method Propose(o: Observation, p: Proposal, raw: Wide, fll: Wide, pll: Wide) returns (decision: Decision)
      requires Represents() && !requestPending
      requires WideArithmetic.Valid(raw) && Value(raw) == p.raw
      requires WideArithmetic.Valid(fll) && Value(fll) == p.fll
      requires WideArithmetic.Valid(pll) && Value(pll) == p.pll
      requires ClockSet(View(), o)
      modifies `requestPending, `pending, `pendingDecision
      ensures Makes(Request(old(View()), o, p), decision)
    {
      hide Window, Magnitude, RepeatedAlternation;
      var alternates := Alternates(p.delta);
      decision := Record(RequestReady(p.path, alternates), p.delta, p.cap, raw, fll, pll, p.maintenance, p.projection);
      requestPending := true;
      pending := Snapshot(decision.sequence, decision.delta, decision.code, raw, fll, pll, p.maintenance,
                          o.timestampS, o.timestampTicks, decision.projection);
      pendingDecision := decision;
    }

    /** The gates between a computed delta and an outstanding request. */
    method ProposeOrHold(o: Observation, p: Proposal, raw: Wide, fll: Wide, pll: Wide, cadenceAlreadyChecked: bool)
      returns (decision: Decision)
      requires Represents() && !requestPending && Holds(View())
      requires WideArithmetic.Valid(raw) && Value(raw) == p.raw
      requires WideArithmetic.Valid(fll) && Value(fll) == p.fll
      requires WideArithmetic.Valid(pll) && Value(pll) == p.pll && p.phaseTerm == p.pll
      requires ClockSet(View(), o)
      requires cadenceAlreadyChecked ==> CadenceStatus(View(), o) == Ready
      modifies this
      ensures Makes(RequestOrHold(old(View()), o, p), decision)
    {
      hide Window, Copies, Magnitude, RepeatedAlternation, CadenceStatus, Holds, Request;
      var projection := p.projection;
      if !cadenceAlreadyChecked {
        var held, backward := CadenceHeld(o);
        if held {
          if backward {
            decision := FailPlain(TimestampBackward);
            return;
          }
          decision := Record(CadenceHold, 0, p.cap, raw, fll, pll, false, projection.(cadenceLimited := true));
          return;
        }
      }
      decision := ProposeWhenReady(o, p, raw, fll, pll);
    }

    method ProposeWhenReady(o: Observation, p: Proposal, raw: Wide, fll: Wide, pll: Wide) returns (decision: Decision)
      requires Represents() && !requestPending && Holds(View())
      requires WideArithmetic.Valid(raw) && Value(raw) == p.raw
      requires WideArithmetic.Valid(fll) && Value(fll) == p.fll
      requires WideArithmetic.Valid(pll) && Value(pll) == p.pll && p.phaseTerm == p.pll
      requires ClockSet(View(), o)
      modifies this
      ensures Makes(RequestWhenReady(old(View()), o, p), decision)
    {
      hide Window, Copies, Magnitude, RepeatedAlternation, Holds, Request;
      ZeroValue();
      OppositeSigns(p.delta, p.pll);
      if p.delta != 0 && p.enforcePhase && Compare(pll, ZERO) != 0 && (p.delta > 0) != Less(ZERO, pll) {
        decision := Record(CoherenceHold, 0, p.cap, raw, fll, pll, false, p.projection);
        return;
      }
      if p.delta == 0 {
        decision := Record(ZeroDeltaHold, 0, p.cap, raw, fll, pll, false, p.projection);
        return;
      }
      if policy.maximumApplications != 0 && applicationCount >= policy.maximumApplications {
        decision := Record(ApplicationBudgetHold, 0, p.cap, raw, fll, pll, false, p.projection.(countLimited := true));
        return;
      }
      var movement: int := Abs(p.delta);
      if policy.maximumMovement != 0
         && (cumulativeMovement > policy.maximumMovement || movement > policy.maximumMovement - cumulativeMovement) {
        decision := Record(MovementBudgetHold, 0, p.cap, raw, fll, pll, false, p.projection.(movementLimited := true));
        return;
      }
      var path := cumulativeMovement + movement;
      var net := Abs(appliedCode + p.delta - chatterOriginCode);
      if policy.maximumMovement != 0 && path >= 42 && 4 * net <= path {
        FailStatically(LowEfficiencyPath);
        decision := Record(LowEfficiencyPath, 0, p.cap, raw, fll, pll, false, p.projection);
        return;
      }
      decision := Propose(o, p, raw, fll, pll);
    }

    method ProposeOrdinary(o: Observation, delta: int, path: Path, phaseTerm: Wide, resetDebt: bool, enforcePhase: bool,
                           projection: Projection) returns (decision: Decision)
      requires Represents() && Deciding(View()) && ClockSet(View(), o)
      requires WideArithmetic.Valid(phaseTerm)
      modifies this
      ensures Makes(OrdinaryRequest(old(View()), o, delta, path, Value(phaseTerm), resetDebt, enforcePhase,
                                    projection), decision)
    {
      hide Window, Copies, Magnitude, RequestOrHold, Holds, Reset;
      ResetKeeps(View(), !resetDebt);
      ResetFrame(View(), !resetDebt);
      ResetMaintenance(!resetDebt);
      ZeroValue();
      decision := ProposeOrHold(o, Proposal(delta, path, policy.maximumStep, 0, 0, Value(phaseTerm), Value(phaseTerm),
                                            enforcePhase, false, projection),
                                ZERO, ZERO, phaseTerm, false);
    }

    // ---- metadata requalification ------------------------------------------------------------

    /** The two-window gate after fresh metadata. */
    method AdvanceMetadataRequalification(o: Observation) returns (hold: Option<Reason>)
      requires Represents() && Deciding(View()) && Admitted(o)
      modifies `metadataHold, `metadataRequalified, `requalification
      modifies `failStaticReason, `requestPending, `responsePending, `pending
      ensures Represents() && (View(), hold) == AdvanceRequalification(old(View()), o)
    {
      hide Window, Copies, IdentityOf;
      var identity := IdentityOf(o);
      if !metadataHold || !metadataRequalified {
        return None;
      }
      if requalification.ordinal == None {
        assert false;  // a requalified hold always has its frontier
      }
      if o.acceptanceEpoch != requalification.epoch.value {
        return Some(RequalificationEpochHold);
      }
      if !OrdinalAtOrAfter(o.opening, requalification.ordinal.value) {
        return Some(RequalificationOrdinalHold);
      }
      if requalification.lastClosing.Some? && !OrdinalAtOrAfter(o.opening, requalification.lastClosing.value) {
        return Some(RequalificationOverlapHold);
      }
      var contiguous := requalification.lastClosing == Some(o.opening) && requalification.identity == Some(identity);
      var count := if contiguous && requalification.windowCount < 2 then requalification.windowCount + 1 else 1;
      requalification := requalification.(windowCount := count, lastClosing := Some(o.closing),
                                          identity := Some(identity));
      if count < 2 {
        return Some(RequalificationWindowHold);
      }
      metadataHold, metadataRequalified := false, false;
      requalification := Requalification(None, None, count, None, None);
      return None;
    }

    // ---- maintenance ---------------------------------------------------------------------------

    /** Extends or restarts the persistence window. */
    method Persist(o: Observation, sign: int)
      requires Represents() && Deciding(View())
      modifies this
      ensures Represents() && View() == Persisted(old(View()), o, sign)
    {
      hide Window, Copies, IdentityOf, Holds;
      if persistence.count != 0 && sign != persistence.sign {
        ResetMaintenance(false);
      }
      var same := persistence.count != 0 && persistence.identity == Some(IdentityOf(o)) && sign == persistence.sign;
      var count := if same then (if persistence.count < 2 then persistence.count + 1 else 2) else 1;
      persistence := Persistence(sign, count, Some(IdentityOf(o)), Some(o.closing));
    }

    /** Rounds the demand and the outstanding debt to codes, within the cap. */
    method MaintenanceDeltaOf(raw: Wide, cap: int) returns (delta: int)
      requires WideArithmetic.Valid(raw) && Abs(Value(raw)) <= DEMAND_LIMIT && DebtBounded(debt)
      requires 0 <= cap && InI32(cap)
      ensures delta == Clamp(RoundRatio(Value(raw) + debt.Total(), PICO), -cap, cap)
    {
      hide Encode, Magnitude, RoundRatio, Less;
      RoundBounds(Value(raw) + debt.Total(), PICO);
      var withFll := CheckedAdd(raw, FromI64(debt.fll));
      var total := CheckedAdd(withFll.value, FromI64(debt.pll));
      var rounded := RoundWideRatio(total.value, FromI64(PICO));
      if Less(rounded.value, FromI64(-cap)) {
        return -cap;
      }
      if Less(FromI64(cap), rounded.value) {
        return cap;
      }
      var exact := ToI64(rounded.value);
      delta := exact.value;
    }

    /** The whole-code proposal of a persistent centre. */
    method ProposeMaintenance(o: Observation, frequency: Wide, combined: Wide, cap: int, projection: Projection)
      returns (decision: Decision)
      requires Represents() && Deciding(View()) && Admitted(o) && ClockSet(View(), o)
      requires WideArithmetic.Valid(frequency) && Value(frequency) == FrequencyCentre(o)
      requires WideArithmetic.Valid(combined) && Value(combined) == Centre(o)
      requires 0 <= cap <= policy.maximumStep && CadenceStatus(View(), o) == Ready
      modifies this
      ensures Makes(RequestOrHold(old(View()), o, MaintenanceProposal(old(View()), o, cap, projection)), decision)
    {
      hide Window, Copies, Encode, Magnitude, RoundRatio, CentreToPicocodes, RequestOrHold, CadenceStatus;
      CentreIsBounded(o);
      DemandIsBounded(Centre(o));
      DemandIsBounded(FrequencyCentre(o));
      var raw := CentreToPicocodesWide(combined);
      var fll := CentreToPicocodesWide(frequency);
      var pll := CheckedSubtract(raw.value, fll.value);
      var delta := MaintenanceDeltaOf(raw.value, cap);
      var p := Proposal(delta, Maintenance, cap, Value(raw.value), Value(fll.value), Value(pll.value), Value(pll.value),
                        true, true, projection);
      decision := ProposeOrHold(o, p, raw.value, fll.value, pll.value, true);
    }

    /** A window whose interval excludes zero, up to the persistence and cadence gates. */
    method DecidePersistent(o: Observation, hold: Option<Reason>, frequency: Wide, combined: Wide,
                            projection: Projection)
      returns (decision: Decision)
      requires Represents() && Deciding(View()) && Admitted(o) && ClockSet(View(), o) && o.appliedCode == appliedCode
      requires WideArithmetic.Valid(frequency) && Value(frequency) == FrequencyCentre(o)
      requires WideArithmetic.Valid(combined) && Value(combined) == Centre(o) && CentreSign(o) != 0
      modifies this
      ensures Makes(MaintenanceWindow(Bits32, old(View()), o, hold, projection), decision)
    {
      hide Window, Copies, Magnitude, RequestOrHold, CadenceStatus, Holds, Persisted, MaintenanceProposal, Cap,
        CentreSign;
      CentreIsBounded(o);
      SignRange(o);
      PersistedKeeps(View(), o, CentreSign(o));
      Persist(o, CentreSign(o));
      PolicyOf(View());
      CapBounds(View(), Centre(o), o.appliedCode);
      var cap := NoZeroCrossCap(policy, cumulativeMovement, combined, o.appliedCode);
      if hold.Some? {
        decision := Held(hold.value, cap, projection);
        return;
      }
      var held, backward := CadenceHeld(o);
      if held {
        if backward {
          decision := FailPlain(TimestampBackward);
          return;
        }
        decision := Held(CadenceHold, cap, projection.(cadenceLimited := true));
        return;
      }
      if persistence.count < 2 {
        decision := Held(FirstIntervalHold, cap, projection);
        return;
      }
      decision := ProposeMaintenance(o, frequency, combined, cap, projection);
    }

    /** A source gap: a new window, or none when the interval contains zero. */
    method RestartAfterGap(o: Observation, sign: int, projection: Projection) returns (decision: Decision)
      requires Represents() && sign == CentreSign(o) && failStaticReason == None
      modifies this
      ensures Makes(Settle(GapRestart(old(View()), o, projection)), decision)
    {
      hide Window, Copies, CentreSign, IdentityOf, Settle, GapRestart, GapState, Reset;
      GapOutcome(View(), o, projection);
      GapStateIs(View(), o);
      if sign == 0 || (persistence.count != 0 && sign != persistence.sign) {
        ResetMaintenance(false);
      }
      persistence := if sign == 0 then NO_PERSISTENCE
                     else Persistence(sign, 1, Some(IdentityOf(o)), Some(o.closing));
      decision := Held(if sign == 0 then ZeroContaining else SourceGapRestart, 0, projection);
    }

    method DecideMaintenance(o: Observation, hold: Option<Reason>, projection: Projection) returns (decision: Decision)
      requires Represents() && Deciding(View()) && Admitted(o) && ClockSet(View(), o) && o.appliedCode == appliedCode
      requires WindowOnlyHold(hold)
      modifies this
      ensures Makes(Settle(MaintenanceDecide(Bits32, old(View()), o, hold, projection)), decision)
    {
      hide Window, Copies, Magnitude, MaintenanceWindow, GapRestart, Holds, Settle, MaintenanceDecide, Reset;
      MaintenanceCases(View(), o, hold, projection);
      var frequency, phase, combined := CentreUnits(o);
      var lower, upper := Interval(combined);
      var sign := StrictSign(lower, upper);
      if persistence.lastClosing.Some? {
        if !OrdinalAtOrAfter(o.opening, persistence.lastClosing.value) {
          decision := Held(SourceOverlapHold, 0, projection);
          return;
        }
        if o.opening != persistence.lastClosing.value {
          decision := RestartAfterGap(o, sign, projection);
          return;
        }
      }
      if sign == 0 {
        WindowOfZero(View(), o, hold, projection);
        ResetMaintenance(false);
        decision := Held(ZeroContaining, 0, projection);
        return;
      }
      decision := DecidePersistent(o, hold, frequency, combined, projection);
    }

    // ---- decide --------------------------------------------------------------------------------

    method OrdinaryDeltas(o: Observation, phaseEnabled: bool)
      returns (combined: Limited, frequency: Limited, phase: Wide)
      requires Represents() && Deciding(View()) && Typed(o)
      ensures combined == LimitedDelta(View(), CombinedDemand(o, phaseEnabled))
      ensures frequency == LimitedDelta(View(), FrequencyDemand(o))
      ensures WideArithmetic.Valid(phase) && Value(phase) == if phaseEnabled then PhaseCentre(o) else 0
    {
      hide Window, Copies, Magnitude, Holds, Deciding, LimitedDelta, LimitedRatio, CombinedDemand, FrequencyDemand,
        PolicyAccepted;
      PolicyOf(View());
      LimitedDeltaIsRatio(View(), o, phaseEnabled);
      ZeroValue();
      var frequencyCentre, phaseCentre, combinedCentre := CentreUnits(o);
      phase := phaseCentre;
      if !phaseEnabled {
        phase := ZERO;
        combinedCentre := frequencyCentre;
      }
      combined := LimitedCodes(combinedCentre, policy, appliedCode);
      frequency := LimitedCodes(frequencyCentre, policy, appliedCode);
    }

    /** Without phase: drop its debt and steer by frequency alone. */
    method DecideDegraded(o: Observation, hold: Option<Reason>) returns (decision: Decision)
      requires Represents() && Deciding(View()) && Admitted(o) && ClockSet(View(), o) && !o.phaseValid
      modifies this
      ensures Makes(ControlDecide(Bits32, old(View()), o, hold), decision)
    {
      hide Window, Copies, Magnitude, Holds, Deciding, Reset, OrdinaryRequest, LimitedDelta, CombinedDemand,
        FrequencyDemand;
      DropPhaseDebtKeeps(View());
      DropPhaseDebtFrame(View());
      DegradedDemand(o);
      debt := Debt(debt.fll, 0);
      ResetMaintenance(true);
      var combined, frequency, phase := OrdinaryDeltas(o, false);
      var projection := Projection(frequency.delta, false, combined.stepLimited, combined.rangeClamped, false, false,
                                   false);
      if hold.Some? {
        decision := Held(hold.value, 0, projection);
        return;
      }
      decision := ProposeOrdinary(o, frequency.delta, Degraded, phase, false, false, projection);
    }

    /** Outside the tight band, or with a material phase: steer by both, and start maintenance afresh. */
    method DecideDirect(o: Observation, hold: Option<Reason>, delta: int, phase: Wide, projection: Projection)
      returns (decision: Decision)
      requires Represents() && Deciding(View()) && Admitted(o) && ClockSet(View(), o) && o.phaseValid
      requires WideArithmetic.Valid(phase) && Value(phase) == PhaseCentre(o)
      requires (delta, projection) == C.OrdinaryDelta(View(), o, true) && (!o.tightInside || projection.phaseMaterial)
      modifies this
      ensures Makes(ControlDecide(Bits32, old(View()), o, hold), decision)
    {
      hide Window, Copies, Magnitude, Holds, Deciding, Reset, OrdinaryRequest, C.OrdinaryDelta;
      if hold.Some? {
        ResetMaintenance(false);
        decision := Held(hold.value, 0, projection);
        return;
      }
      decision := ProposeOrdinary(o, delta, DirectPath(o), phase, true, true, projection);
    }

    method DecideControl(o: Observation, hold: Option<Reason>) returns (decision: Decision)
      requires Represents() && Deciding(View()) && Admitted(o) && ClockSet(View(), o) && o.appliedCode == appliedCode
      requires WindowOnlyHold(hold)
      modifies this
      ensures Makes(Settle(ControlDecide(Bits32, old(View()), o, hold)), decision)
    {
      hide Window, Copies, Magnitude, Holds, Deciding, Settle, ControlDecide, LimitedDelta, CombinedDemand,
        FrequencyDemand;
      ControlCases(View(), o, hold);
      if !o.phaseValid {
        decision := DecideDegraded(o, hold);
        return;
      }
      var combined, frequency, phase := OrdinaryDeltas(o, true);
      var phaseMaterial := combined.delta != frequency.delta;
      var projection := Projection(frequency.delta, phaseMaterial, combined.stepLimited, combined.rangeClamped,
                                   false, false, false);
      if !o.tightInside || phaseMaterial {
        decision := DecideDirect(o, hold, combined.delta, phase, projection);
        return;
      }
      decision := DecideMaintenance(o, hold, projection);
    }

    /** A change of identity: nothing, a reset, or a contradiction. */
    method ChangeIdentity(o: Observation)
      requires Represents() && Deciding(View())
      modifies this
      ensures Represents() && View() == IdentityChange(old(View()), o)
    {
      hide Window, Copies, Holds, Reset;
      var identity := IdentityOf(o);
      if persistence.identity.Some? && persistence.identity.value != identity {
        var was := persistence.identity.value;
        if identity.captureSession != was.captureSession || identity.acceptanceEpoch != was.acceptanceEpoch
           || identity.estimator != was.estimator {
          ResetMaintenance(false);
        } else if identity.appliedCode != was.appliedCode || identity.dacEpoch != was.dacEpoch {
          FailStatically(ContradictoryApplication);
        } else if identity.phaseEpoch != was.phaseEpoch || identity.phaseValid != was.phaseValid {
          debt := Debt(debt.fll, 0);
          ResetMaintenance(true);
        }
      }
    }

    method DecideQualified(o: Observation) returns (decision: Decision)
      requires Represents() && Deciding(View()) && Admitted(o) && ClockSet(View(), o) && o.appliedCode == appliedCode
      modifies this
      ensures Makes(Settle(QualifiedDecide(Bits32, old(View()), o)), decision)
    {
      hide Window, Copies, Holds, Deciding, Settle, ControlDecide, AdvanceRequalification, IdentityChange, Reset;
      QualifiedCases(View(), o);
      IdentityChangeKeeps(View(), o);
      ChangeIdentity(o);
      if failStaticReason.Some? {
        decision := Plain(failStaticReason.value);
        return;
      }
      if !o.authorityValid {
        ResetMaintenance(true);
        decision := Plain(AuthorityHold);
        return;
      }
      if !o.settled {
        ResetMaintenance(true);
        decision := Plain(SettlingHold);
        return;
      }
      AdvanceKeeps(View(), o);
      var hold := AdvanceMetadataRequalification(o);
      if hold == Some(RequalificationEpochHold) || hold == Some(RequalificationOrdinalHold)
         || hold == Some(RequalificationOverlapHold) {
        decision := Plain(hold.value);
        return;
      }
      decision := DecideControl(o, hold);
    }

    /** The holds that precede any look at the measurement. */
    method DecideAdmitted(o: Observation) returns (decision: Decision)
      requires Represents() && Holds(View()) && failStaticReason == None && Admitted(o) && ClockSet(View(), o)
      modifies this
      ensures Makes(Settle(FrontierDecide(Bits32, old(View()), o)), decision)
    {
      hide Window, Copies, Holds, Deciding, Settle, QualifiedDecide, Reset, FailStatic;
      FrontierCases(View(), o);
      if requestPending {
        decision := Plain(RequestPendingHold);
        return;
      }
      if responsePending {
        decision := Plain(ResponsePendingHold);
        return;
      }
      if !o.metadataQualified {
        if !metadataHold || metadataRequalified {
          FreezeMetadata();
        }
        decision := Plain(MetadataHold);
        return;
      }
      if metadataHold && !metadataRequalified {
        decision := Plain(MetadataHold);
        return;
      }
      if o.appliedCode != appliedCode || o.dacEpoch != dacEpoch {
        decision := FailPlain(ContradictoryApplication);
        return;
      }
      HoldsDeciding(View());
      decision := DecideQualified(o);
    }

    /** One decision.  A non-zero delta is only a proposal, and at most one is outstanding. */
    method Decide(o: Observation) returns (decision: Decision)
      requires Valid() && Typed(o)
      modifies this
      ensures Valid() && View() == F.Decide(old(View()), o).state && decision == F.Decide(old(View()), o).decision
    {
      hide Window, Copies, Holds, Settle, FrontierDecide, FailStatic, F.Decide, C.Decide, Observed, ExactSpan, Typed;
      DecideKeeps(View(), o);
      SequenceBound(View());
      DecideCases(View(), o);
      if decisionSequence == MAXIMUM_U64 {
        decision := FailPlain(DecisionIdentityExhausted);
        return;
      }
      ObservedKeeps(View(), o);
      ObservedFrame(View(), o);
      NoteObservation(o);
      if failStaticReason.Some? {
        decision := Plain(failStaticReason.value);
        return;
      }
      if o.timestampS != o.timestampTicks / TICKS_PER_SECOND {
        decision := FailPlain(TimestampMismatch);
        return;
      }
      if !ExactSpan(o) {
        decision := FailPlain(InvalidFrontier);
        return;
      }
      decision := DecideAdmitted(o);
    }

    method NoteObservation(o: Observation)
      requires Represents()
      modifies `decisionSequence, `currentTicks
      ensures Represents() && View() == Observed(old(View()), o)
    {
      hide Window, Copies;
      decisionSequence := decisionSequence + 1;
      currentTicks := o.timestampTicks;
    }

    // ---- transaction -----------------------------------------------------------------------

    /** Every field of the snapshot comes back unchanged. */
    method ReturnsSnapshot(d: Decision) returns (same: bool)
      requires Represents() && requestPending
      ensures same <==> MatchesSnapshot(pendingDecision, d)
    {
      hide Window, Magnitude;
      same := d.sequence == pending.sequence && d.delta == pending.delta && d.code == pending.code
              && d.raw == Value(pending.raw) && d.fll == Value(pending.fll) && d.pll == Value(pending.pll)
              && d.maintenance == pending.maintenance && d.ticks == pending.ticks && d.projection == pending.projection;
    }

    method CommitDebt()
      requires Represents() && requestPending && Holds(View())
      modifies this`debt
      ensures Represents()
      ensures View() == old(View()).(
                          debt := if pendingDecision.maintenance then ResidualDebt(old(debt), pendingDecision)
                                             else Debt(0, 0))
    {
      hide Window, Copies, Holds, ResidualDebt;
      SnapshotFields(pending, pendingDecision);
      if pending.maintenance {
        PendingBounds(View());
        var residual := Residual(pending.raw, pending.delta, debt);
        debt := ShareResidual(residual, pending.fll, pending.pll, debt, pendingDecision);
      } else {
        debt := Debt(0, 0);
      }
    }

    /** The counts of an application and its travel, saturating at 32 bits. */
    method CommitCounts()
      requires Represents() && requestPending && InU32(applicationCount) && InU32(cumulativeMovement)
      modifies `applicationCount, `cumulativeMovement
      ensures View() == old(View()).(
                        applicationCount := SaturatingAdd(old(applicationCount), 1),
                        movement := SaturatingAdd(old(cumulativeMovement), Abs(pendingDecision.delta)))
    {
      hide Window, Copies, SaturatingAdd, Abs;
      SnapshotFields(pending, pendingDecision);
      var movement: int := Abs(pending.delta);
      Saturates(applicationCount, 1);
      Saturates(cumulativeMovement, movement);
      if applicationCount != MAXIMUM_U32 {
        applicationCount := applicationCount + 1;
      }
      cumulativeMovement := if MAXIMUM_U32 - cumulativeMovement < movement then MAXIMUM_U32
                            else cumulativeMovement + movement;
    }

    /** The actuator and cadence after an application. */
    method CommitActuator(code: int, dacEpoch: int)
      requires requestPending
      modifies `appliedCode, `dacEpoch, `lastApplication
      ensures View() == old(View()).(
                        appliedCode := code, dacEpoch := dacEpoch,
                        lastApplication := Some(old(View()).pending.value.stamp))
    {
      appliedCode := code;
      this.dacEpoch := dacEpoch;
      lastApplication := Some(Stamp(pending.timestampS, pending.ticks));
    }

    /** Hands the transaction over to its response. */
    method AwaitResponse()
      requires Represents()
      modifies `requestPending, `responsePending, `pending, `persistence
      ensures Represents()
      ensures View() == old(View()).(pending := None, responsePending := true, persistence := NO_PERSISTENCE)
    {
      hide Window, Copies;
      CloseTransaction(true);
      persistence := NO_PERSISTENCE;
    }

    /** Commits the applied code, epoch, counts and residual debt. */
    method CommitApplication(code: int, dacEpoch: int)
      requires Represents() && requestPending && Holds(View())
      modifies this, directionHistory
      ensures Represents() && View() == Commit(old(View()), old(View()).pending.value, code, dacEpoch)
    {
      hide Window, Copies, Holds, ResidualDebt;
      HasSnapshot();
      CommitBounds(View());
      CommitDebt();
      RememberDirection(pending.delta);
      CommitCounts();
      CommitActuator(code, dacEpoch);
      AwaitResponse();
    }

    lemma HasSnapshot()
      requires Represents() && requestPending
      ensures pending.delta == pendingDecision.delta
    {
      SnapshotFields(pending, pendingDecision);
    }

    /** The application and its first consumer: commits only the exact outstanding proposal. */
    method NoteApplication(d: Decision, code: int, dacEpoch: int, exact: bool) returns (ok: bool)
      requires Valid()
      modifies this, directionHistory
      ensures Valid()
      ensures View() == F.Confirm(old(View()), d, code, dacEpoch, exact).state
      ensures ok == F.Confirm(old(View()), d, code, dacEpoch, exact).ok
    {
      hide Window, Copies, Holds, Commit, FailStatic, MatchesSnapshot;
      ConfirmKeeps(View(), d, code, dacEpoch, exact);
      var matches := false;
      if requestPending && !responsePending {
        SnapshotFields(pending, pendingDecision);
        matches := ReturnsSnapshot(d);
        MatchedDelta(pendingDecision, d);
      }
      if !matches || d.delta == 0 {
        FailStatically(UnexpectedApplication);
        return false;
      }
      if !exact || code != pending.code || dacEpoch != (this.dacEpoch + 1) % WORD {
        FailStatically(InexactConsumer);
        return false;
      }
      CommitApplication(code, dacEpoch);
      return true;
    }

    method RejectOrExpire() returns (ok: bool)
      requires Valid()
      modifies `failStaticReason, `requestPending, `responsePending, `pending
      ensures Valid() && View() == F.Reject(old(View())).state && ok == F.Reject(old(View())).ok
    {
      hide Window, Copies, Holds, FailStatic;
      RejectKeeps(View());
      if !requestPending || responsePending {
        FailStatically(InvalidRejection);
        return false;
      }
      requestPending := false;
      ForgetPending();
      return true;
    }

    method CompleteResponse(freshExact: bool) returns (ok: bool)
      requires Valid()
      modifies `responsePending
      ensures Valid() && View() == F.Complete(old(View()), freshExact).state
              && ok == F.Complete(old(View()), freshExact).ok
    {
      hide Window, Copies, Holds;
      CompleteKeeps(View(), freshExact);
      if !responsePending || !freshExact {
        return false;
      }
      responsePending := false;
      return true;
    }

    method EnterMetadataHold() returns (ok: bool)
      requires Valid()
      modifies `metadataHold, `metadataRequalified, `requalification, `debt, `persistence
      ensures Valid() && View() == F.EnterMetadataHold(old(View())).state && ok == F.EnterMetadataHold(old(View())).ok
    {
      hide Window, Copies, Holds;
      MetadataKeeps(View(), 0, 0);
      if requestPending {
        return false;
      }
      FreezeMetadata();
      return true;
    }

    method RequalifyMetadata(epoch: int, ordinal: int) returns (ok: bool)
      requires Valid() && InU64(epoch) && InU64(ordinal)
      modifies `metadataRequalified, `requalification, `debt, `persistence
      ensures Valid() && View() == F.RequalifyMetadata(old(View()), epoch, ordinal).state
      ensures ok == F.RequalifyMetadata(old(View()), epoch, ordinal).ok
    {
      hide Window, Copies, Holds;
      MetadataKeeps(View(), epoch, ordinal);
      if !metadataHold || requestPending || responsePending || epoch == 0 || ordinal > MAXIMUM_U32 {
        return false;
      }
      metadataRequalified := true;
      requalification := Requalification(Some(epoch), Some(ordinal), 0, None, None);
      ResetMaintenance(true);
      return true;
    }

    method ActivatePolicy() returns (ok: bool)
      requires Valid()
      modifies this
      ensures Valid() && View() == F.Activate(old(View())).state && ok == F.Activate(old(View())).ok
    {
      hide Window, Copies, Holds, FailStatic, Reset;
      ActivateKeeps(View());
      if requestPending || responsePending {
        FailStatically(ActivationWithTransaction);
        return false;
      }
      ResetMaintenance(false);
      return true;
    }

    /** Starts the cadence from the exact setup application. */
    method BindExactSetup(ticks: int) returns (ok: bool)
      requires Valid() && InU64(ticks)
      modifies `lastApplication
      ensures Valid() && View() == F.BindSetup(old(View()), ticks).state && ok == F.BindSetup(old(View()), ticks).ok
    {
      hide Window, Copies, Holds;
      BindSetupKeeps(View(), ticks);
      if ticks == 0 || lastApplication.Some? || requestPending || responsePending || applicationCount != 0
        || dacEpoch == 0 {
        return false;
      }
      lastApplication := Some(Stamp(ticks / TICKS_PER_SECOND, ticks));
      return true;
    }
  }

  lemma SnapshotFields(p: Snapshot, d: Decision)
    requires Copies(p, d)
    ensures p.delta == d.delta && p.code == d.code && p.maintenance == d.maintenance
    ensures Valid(p.raw) && Value(p.raw) == d.raw && Valid(p.fll) && Value(p.fll) == d.fll
    ensures Valid(p.pll) && Value(p.pll) == d.pll
  {
  }

  lemma ResidualDebtIs(debt: Debt, d: Decision, residual: int)
    requires residual == Clamp(d.raw + debt.Total() - d.delta * PICO, -DEBT_LIMIT, DEBT_LIMIT)
    ensures var f, p := Abs(d.fll + debt.fll), Abs(d.pll + debt.pll);
            ResidualDebt(debt, d) == if f + p == 0 then Debt(residual, 0)
                                     else var fll := RoundRatio(residual * f, f + p); Debt(fll, residual - fll)
    ensures Abs(residual) <= DEBT_LIMIT
  {
    hide RoundRatio;
  }

  lemma ShareSign(residual: int, weight: int, total: int)
    requires total > 0
    ensures RoundRatio(residual * weight, total)
            == if residual < 0 then -RoundRatio(Abs(residual) * weight, total)
              else RoundRatio(Abs(residual) * weight, total)
  {
    hide RoundRatio;
    if residual < 0 {
      RoundIsOdd(-residual * weight, total);
      assert residual * weight == -(-residual * weight);
    }
  }

  lemma Saturates(a: int, b: int)
    requires InU32(a) && b >= 0
    ensures SaturatingAdd(a, b) == if MAXIMUM_U32 - a < b then MAXIMUM_U32 else a + b
    ensures b == 1 ==> SaturatingAdd(a, b) == if a != MAXIMUM_U32 then a + 1 else a
  {
  }

  lemma MatchedDelta(p: Decision, d: Decision)
    ensures MatchesSnapshot(p, d) ==> p.delta == d.delta
  {
  }

  lemma PendingBounds(s: State)
    requires Holds(s) && s.pending.Some? && s.pending.value.decision.maintenance
    ensures var d := s.pending.value.decision;
            && InI32(d.delta) && DemandBounded(d) && DebtBounded(s.debt) && Abs(d.raw) <= DEMAND_LIMIT
  {
  }

  lemma CommitBounds(s: State)
    requires Holds(s) && s.pending.Some?
    ensures InU32(s.applicationCount) && InU32(s.movement)
  {
  }

  lemma OppositeSigns(a: int, b: int)
    ensures a * b < 0 <==> (a > 0 && b < 0) || (a < 0 && b > 0)
  {
    if a != 0 && b != 0 {
      ProductSign(Abs(a), Abs(b));
      assert a * b == if (a > 0) == (b > 0) then Abs(a) * Abs(b) else -(Abs(a) * Abs(b));
    }
  }

  lemma ProductSign(a: int, b: int)
    requires a > 0 && b > 0
    ensures a * b > 0
  {
    MulAtLeast(a, b);
  }

  lemma {:induction false} ReversalsAppend(directions: seq<int>, next: int)
    requires |directions| > 0
    ensures Reversals(directions + [next])
            == Reversals(directions) + if directions[|directions| - 1] != next then 1 else 0
  {
    if |directions| > 1 {
      ReversalsAppend(directions[1..], next);
      assert (directions + [next])[1..] == directions[1..] + [next];
    }
  }

  /** Storing in the next free slot, or shifting a full window, keeps the latest three. */
  lemma WindowAppend(slots: seq<int>, count: nat, history: seq<int>, next: int)
    requires Window(slots, count, history)
    ensures count < 3 ==> Window(slots[count := next], count + 1, history + [next])
    ensures count == 3 ==> Window(slots[1..] + [next], 3, history + [next])
  {
    if count < 3 {
      assert slots[count := next][..count + 1] == slots[..count] + [next];
    } else {
      assert (slots[1..] + [next])[..3] == slots[1..] + [next];
      assert LastThree(history + [next]) == LastThree(history)[1..] + [next];
    }
  }
}
