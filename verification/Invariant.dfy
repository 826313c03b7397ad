/** What every transition of the firmware engine keeps. */
module Invariant {
  import opened Words
  import opened Rounding
  import opened Controller
  import opened Firmware
  import C = Controller
  import F = Firmware

  predicate InU64(x: int) {
    0 <= x <= MAXIMUM_U64
  }

  predicate InI64(x: int) {
    -HALF_WORD <= x < HALF_WORD
  }

  predicate InU32(x: int) {
    0 <= x <= MAXIMUM_U32
  }

  predicate InI32(x: int) {
    -0x8000_0000 <= x < 0x8000_0000
  }

  /** The C types of an observation. */
  predicate Typed(o: Observation) {
    && InU64(o.timestampS) && InU64(o.timestampTicks) && InU64(o.captureSession) && InU64(o.acceptanceEpoch)
    && InU64(o.opening) && InU64(o.closing) && InU64(o.dacEpoch) && InI32(o.appliedCode)
    && InI64(o.edgeError) && InU64(o.phaseEpoch) && InI64(o.phaseCycles) && InU64(o.estimator)
  }

  /** An observation that passed the span check. */
  predicate Admitted(o: Observation) {
    Typed(o) && ExactSpan(o)
  }

  /** The policies engine initialisation accepts. */
  predicate PolicyAccepted(p: Policy) {
    && 0 < p.maximumStep && InI32(p.maximumStep)
    && p.minimumCode < p.maximumCode && InI32(p.minimumCode) && InI32(p.maximumCode)
    && 0 < p.minimumCadenceS <= MAXIMUM_U64 / TICKS_PER_SECOND
    && InU32(p.maximumApplications) && InU32(p.maximumMovement)
  }

  predicate InRange(p: Policy, code: int) {
    p.minimumCode <= code <= p.maximumCode
  }

  // ---- clauses ---------------------------------------------------------------------------

  /** The two tags never pull in opposite directions, and together stay within half a code. */
  predicate DebtBounded(debt: Debt) {
    && ((debt.fll >= 0 && debt.pll >= 0) || (debt.fll <= 0 && debt.pll <= 0))
    && Abs(debt.Total()) <= DEBT_LIMIT
  }

  predicate PersistenceBounded(p: Persistence) {
    && 0 <= p.count <= 2
    && (p.lastClosing.Some? ==> InU32(p.lastClosing.value))
    && (p.count != 0 ==> p.sign in {1, -1} && p.identity.Some? && p.lastClosing.Some?)
  }

  predicate DirectionsOk(directions: seq<int>) {
    forall i :: 0 <= i < |directions| ==> directions[i] in {1, -1}
  }

  /** With a movement budget the path stays short, or stays efficient. */
  predicate PathBounded(p: Policy, movement: int, net: int) {
    p.maximumMovement != 0 ==> movement <= p.maximumMovement && (movement < 42 || 4 * net > movement)
  }

  const DEMAND_LIMIT: int := 100_000_000_000_000_000_000_000_000_000_000

  predicate DemandBounded(d: Decision) {
    && Abs(d.raw) <= DEMAND_LIMIT && Abs(d.fll) <= DEMAND_LIMIT && d.pll == d.raw - d.fll
  }

  predicate CadenceKept(s: State, ticks: int) {
    s.lastApplication.Some? ==>
      ticks >= s.lastApplication.value.ticks + s.policy.minimumCadenceS * TICKS_PER_SECOND
  }

  /** A maintenance delta is the rounded demand plus debt, within the cap. */
  predicate MaintenanceDelta(s: State, d: Decision) {
    && 0 <= d.cap <= s.policy.maximumStep
    && d.delta == Clamp(RoundRatio(d.raw + s.debt.Total(), PICO), -d.cap, d.cap)
    && DemandBounded(d)
  }

  /** An outstanding proposal is still exactly what the present state would commit. */
  predicate PendingOk(s: State, p: Pending) {
    var d := p.decision;
    && d.delta != 0 && Abs(d.delta) <= s.policy.maximumStep
    && d.code == s.appliedCode + d.delta && InRange(s.policy, d.code)
    && d.committedDebt == s.debt.Total()
    && d.ticks == p.stamp.ticks && InU64(d.ticks) && d.sequence <= s.decisionSequence
    && CadenceKept(s, d.ticks)
    && (s.policy.maximumApplications != 0 ==> s.applicationCount < s.policy.maximumApplications)
    && PathBounded(s.policy, s.movement + Abs(d.delta), Abs(d.code - s.chatterOrigin))
    && (d.maintenance ==> MaintenanceDelta(s, d))
  }

  predicate CountsOk(s: State) {
    && InU64(s.dacEpoch) && InU64(s.decisionSequence) && InU64(s.currentTicks)
    && 0 <= s.applicationCount <= s.movement && InU32(s.movement)
    && (s.policy.maximumApplications != 0 ==> s.applicationCount <= s.policy.maximumApplications)
    && (s.lastApplication.Some? ==> InU64(s.lastApplication.value.ticks))
  }

  predicate RequalificationOk(s: State) {
    && (s.metadataRequalified ==> s.metadataHold && s.requalification.ordinal.Some? && s.requalification.epoch.Some?)
    && 0 <= s.requalification.windowCount <= 2
    && (s.metadataRequalified ==> s.requalification.windowCount <= 1)
    && (s.metadataRequalified && s.requalification.lastClosing.Some? ==> s.requalification.windowCount == 1)
    && (s.requalification.ordinal.Some? ==> InU32(s.requalification.ordinal.value))
    && (s.requalification.lastClosing.Some? ==> InU32(s.requalification.lastClosing.value))
  }

  /** One transaction at most, and none in a fail-static engine. */
  predicate OneTransaction(s: State) {
    && !(s.pending.Some? && s.responsePending)
    && (s.failReason.Some? ==> s.pending == None && !s.responsePending)
  }

  predicate Holds(s: State) {
    && PolicyAccepted(s.policy)
    && InRange(s.policy, s.appliedCode) && InRange(s.policy, s.chatterOrigin)
    && CountsOk(s) && DirectionsOk(s.directions)
    && DebtBounded(s.debt) && PersistenceBounded(s.persistence)
    && PathBounded(s.policy, s.movement, Abs(s.appliedCode - s.chatterOrigin))
    && RequalificationOk(s) && OneTransaction(s)
    && (s.pending.Some? ==> PendingOk(s, s.pending.value))
  }

  /** A state in which a decision may be made. */
  predicate Deciding(s: State) {
    Holds(s) && s.pending == None && !s.responsePending && s.failReason == None
  }

  // ---- arithmetic ------------------------------------------------------------------------

  lemma CentreIsBounded(o: Observation)
    requires Typed(o)
    ensures Abs(Centre(o)) <= MAXIMUM_CENTRE && Abs(FrequencyCentre(o)) <= MAXIMUM_CENTRE - 36
  {
  }

  lemma DemandIsBounded(centre: int)
    requires Abs(centre) <= MAXIMUM_CENTRE
    ensures Abs(CentreToPicocodes(centre)) <= DEMAND_LIMIT
  {
    CentreConversionFits(Abs(centre));
    var m: int := Abs(centre);
    var q, r := m / CONVERSION_DENOMINATOR, m % CONVERSION_DENOMINATOR;
    RoundBounds(r * CONVERSION_NUMERATOR, CONVERSION_DENOMINATOR);
    assert q * CONVERSION_NUMERATOR <= 80_000_000_000 * CONVERSION_NUMERATOR;
    assert r * CONVERSION_NUMERATOR <= CONVERSION_DENOMINATOR * CONVERSION_NUMERATOR;
  }

  /** A demand whose interval excludes zero exceeds any debt. */
  lemma DemandExceedsDebt(centre: int)
    requires Abs(centre) > 18
    ensures centre > 0 ==> CentreToPicocodes(centre) > 2 * DEBT_LIMIT
    ensures centre < 0 ==> CentreToPicocodes(centre) < -2 * DEBT_LIMIT
  {
    CentreConversionIsOdd(centre);
    CentreConversionIsMonotone(19, Abs(centre));
    RoundIsMonotone(CONVERSION_DENOMINATOR * (2 * DEBT_LIMIT + 1), 19 * CONVERSION_NUMERATOR, CONVERSION_DENOMINATOR);
    CentreConversionIsOneRounding(19);
    RoundByRemainder(CONVERSION_DENOMINATOR * (2 * DEBT_LIMIT + 1), CONVERSION_DENOMINATOR, 2 * DEBT_LIMIT + 1, 0);
  }

  /** Splitting a residual by weights leaves both parts on its side. */
  lemma ResidualDebtBounded(debt: Debt, d: Decision)
    ensures DebtBounded(ResidualDebt(debt, d))
    ensures ResidualDebt(debt, d).Total() == Clamp(d.raw + debt.Total() - d.delta * PICO, -DEBT_LIMIT, DEBT_LIMIT)
  {
    var residual := Clamp(d.raw + debt.Total() - d.delta * PICO, -DEBT_LIMIT, DEBT_LIMIT);
    var f: int, p: int := Abs(d.fll + debt.fll), Abs(d.pll + debt.pll);
    if f + p != 0 {
      ShareBounds(residual, f, f + p);
    }
  }

  lemma ShareBounds(residual: int, weight: int, total: int)
    requires 0 <= weight <= total && total > 0
    ensures residual >= 0 ==> 0 <= RoundRatio(residual * weight, total) <= residual
    ensures residual <= 0 ==> residual <= RoundRatio(residual * weight, total) <= 0
  {
    var m: int := Abs(residual);
    assert 0 <= m * weight <= m * total by {
      MulAtMost(0, weight, m);
      MulAtMost(weight, total, m);
      assert weight * m == m * weight && total * m == m * total;
    }
    RoundIsMonotone(0, m * weight, total);
    RoundIsMonotone(m * weight, m * total, total);
    RoundByRemainder(0, total, 0, 0);
    RoundByRemainder(m * total, total, m, 0);
    RoundIsOdd(m * weight, total);
    assert (-m) * weight == -(m * weight);
  }

  // ---- small transitions -----------------------------------------------------------------

  lemma ResetKeeps(s: State, preserveDebt: bool)
    requires Deciding(s)
    ensures Deciding(Reset(s, preserveDebt)) && Reset(s, preserveDebt).persistence.count == 0
  {
    hide DirectionsOk, PathBounded, PolicyAccepted, InRange, PendingOk;
  }

  lemma ResetHolds(s: State, preserveDebt: bool)
    requires Holds(s) && s.pending == None
    ensures Holds(Reset(s, preserveDebt))
  {
    hide DirectionsOk, PathBounded, PolicyAccepted, InRange, PendingOk;
  }

  lemma ResetFrame(s: State, preserveDebt: bool)
    ensures var r := Reset(s, preserveDebt);
            r.policy == s.policy && r.appliedCode == s.appliedCode && r.currentTicks == s.currentTicks
  {
  }

  /** Replacing the persistence window keeps the rest. */
  lemma WindowKeeps(s: State, p: Persistence)
    requires Deciding(s) && PersistenceBounded(p)
    ensures Deciding(s.(persistence := p))
  {
    hide DirectionsOk, PathBounded, PolicyAccepted, InRange, PendingOk;
  }

  lemma DropPhaseDebtKeeps(s: State)
    requires Deciding(s)
    ensures Deciding(DropPhaseDebt(s)) && DropPhaseDebt(s).persistence.count == 0
  {
    hide DirectionsOk, PathBounded, PolicyAccepted, InRange, PendingOk;
  }

  lemma FailKeeps(s: State, reason: Reason)
    requires Holds(s)
    ensures Holds(FailStatic(s, reason)) && FailStatic(s, reason).failReason.Some?
  {
    hide DirectionsOk, PathBounded, PolicyAccepted, InRange, PendingOk;
  }

  lemma EnterHoldKeeps(s: State)
    requires Holds(s) && s.pending == None
    ensures Holds(EnterHold(s))
  {
    hide DirectionsOk, PathBounded, PolicyAccepted, InRange, PendingOk;
  }

  lemma ObservedKeeps(s: State, o: Observation)
    requires Holds(s) && Typed(o) && s.decisionSequence < MAXIMUM_U64
    ensures Holds(Observed(s, o))
  {
    hide DirectionsOk, PathBounded, PolicyAccepted, InRange, DemandBounded, RoundRatio;
  }

  // ---- maintenance demand ------------------------------------------------------------------

  /** In 32 bits a headroom of an accepted policy is exact, or wraps below zero. */
  lemma HeadroomWraps(p: Policy, sign: int, code: int)
    requires PolicyAccepted(p) && InRange(p, code)
    ensures var exact := Headroom(Exact, p, sign, code);
            && 0 <= exact
            && Headroom(Bits32, p, sign, code) == (if exact <= 0x7FFF_FFFF then exact else exact - WORD32)
            && (exact > 0x7FFF_FFFF ==> exact - WORD32 < 0)
  {
  }

  /** No headroom of a policy overflows if and only if its code range is at most 2^31 - 1 codes wide. */
  lemma HeadroomsFitExactly(p: Policy)
    requires PolicyAccepted(p)
    ensures (forall sign, code :: InRange(p, code) ==>
                                    Headroom(Bits32, p, sign, code) == Headroom(Exact, p, sign, code))
            <==> p.maximumCode - p.minimumCode <= 0x7FFF_FFFF
  {
    forall sign, code | InRange(p, code)
      ensures Headroom(Bits32, p, sign, code) == Headroom(Exact, p, sign, code)
              <==> Headroom(Exact, p, sign, code) <= 0x7FFF_FFFF
    {
      HeadroomWraps(p, sign, code);
    }
    assert InRange(p, p.minimumCode) && Headroom(Exact, p, 1, p.minimumCode) == p.maximumCode - p.minimumCode;
  }

  /** The 32-bit cap is the exact one, or none where the headroom overflows. */
  lemma CapIsExactOrNone(s: State, centre: int, code: int)
    requires PolicyAccepted(s.policy) && InRange(s.policy, code)
    ensures var exact := Headroom(Exact, s.policy, centre, code);
            Cap(Bits32, s, centre, code) == if exact <= 0x7FFF_FFFF then Cap(Exact, s, centre, code) else 0
  {
    hide CodeDifference, PolicyAccepted;
    HeadroomWraps(s.policy, centre, code);
  }

  lemma CapBounds(s: State, centre: int, code: int)
    requires PolicyAccepted(s.policy) && InRange(s.policy, code)
    ensures var cap := Cap(Bits32, s, centre, code);
            && 0 <= cap <= s.policy.maximumStep
            && (cap > 0 && centre > 0 ==> code + cap <= s.policy.maximumCode)
            && (cap > 0 && centre < 0 ==> code - cap >= s.policy.minimumCode)
            && (cap > 0 ==> Abs(centre) > 18)
            && (cap > 0 ==> cap * (21_600 * PLANT_GAIN) <= NearestEdge(centre) * PICO)
            && (cap > 0 && s.policy.maximumMovement != 0 ==> s.movement + cap <= s.policy.maximumMovement)
  {
    CapIsExactOrNone(s, centre, code);
    var nearest := NearestEdge(centre);
    assert nearest * PICO / (21_600 * PLANT_GAIN) * (21_600 * PLANT_GAIN) <= nearest * PICO;
  }

  /** A step the cap must allow: within step limit, budget and range, and unable to carry the plant across zero. */
  predicate StepFits(s: State, centre: int, code: int, step: int) {
    && 0 < step <= s.policy.maximumStep
    && step * (21_600 * 173_340_101) <= (if centre > 0 then centre - 18 else -centre - 18) * 1_000_000_000_000
    && (s.policy.maximumMovement != 0 ==> s.movement + step <= s.policy.maximumMovement)
    && s.policy.minimumCode <= (if centre > 0 then code + step else code - step) <= s.policy.maximumCode
  }

  /** The cap allows exactly the steps that fit, wherever the headroom does. */
  lemma CapIsLargest(s: State, centre: int, code: int, step: int)
    requires PolicyAccepted(s.policy) && InRange(s.policy, code) && (centre > 18 || centre < -18) && step > 0
    ensures step <= Cap(Exact, s, centre, code) <==> StepFits(s, centre, code, step)
  {
    var nearest := if centre > 0 then centre - 18 else -centre - 18;
    var crossing := 21_600 * PLANT_GAIN;
    var whole := nearest * PICO / crossing;
    if step <= whole {
      MulAtMost(step, whole, crossing);
    }
    if step * crossing <= nearest * PICO {
      MulCancel(step, whole, nearest * PICO % crossing, crossing);
    }
  }

  /** The maintenance delta moves toward the centre, and no further than the cap. */
  lemma MaintenanceDirection(s: State, o: Observation, cap: int, projection: Projection)
    requires DebtBounded(s.debt) && Abs(Centre(o)) > 18 && cap >= 0
    ensures var delta := MaintenanceProposal(s, o, cap, projection).delta;
            && (Centre(o) > 0 ==> 0 <= delta <= cap)
            && (Centre(o) < 0 ==> -cap <= delta <= 0)
  {
    hide RoundRatio, CentreToPicocodes;
    DemandExceedsDebt(Centre(o));
    RoundBounds(CentreToPicocodes(Centre(o)) + s.debt.Total(), PICO);
  }

  /** What the last gates may assume of a proposal. */
  predicate ProposalOk(s: State, p: Proposal) {
    && Abs(p.delta) <= s.policy.maximumStep && InRange(s.policy, s.appliedCode + p.delta)
    && (p.maintenance ==>
          && 0 <= p.cap <= s.policy.maximumStep
          && p.delta == Clamp(RoundRatio(p.raw + s.debt.Total(), PICO), -p.cap, p.cap)
          && Abs(p.raw) <= DEMAND_LIMIT && Abs(p.fll) <= DEMAND_LIMIT && p.pll == p.raw - p.fll)
  }

  lemma MaintenanceProposalOk(s: State, o: Observation, projection: Projection)
    requires Deciding(s) && Typed(o) && CentreSign(o) != 0 && o.appliedCode == s.appliedCode
    ensures ProposalOk(s, MaintenanceProposal(s, o, Cap(Bits32, s, Centre(o), o.appliedCode), projection))
  {
    hide RoundRatio, CentreToPicocodes, Cap;
    var cap := Cap(Bits32, s, Centre(o), o.appliedCode);
    CapBounds(s, Centre(o), o.appliedCode);
    MaintenanceDirection(s, o, cap, projection);
    CentreIsBounded(o);
    DemandIsBounded(Centre(o));
    DemandIsBounded(FrequencyCentre(o));
  }

  lemma LimitedDeltaOk(s: State, value: real)
    requires Deciding(s)
    ensures Abs(LimitedDelta(s, value).delta) <= s.policy.maximumStep
    ensures InRange(s.policy, s.appliedCode + LimitedDelta(s, value).delta)
  {
    hide RoundReal;
  }

  // ---- decide ----------------------------------------------------------------------------

  predicate GoodClock(o: Observation) {
    o.timestampS == o.timestampTicks / TICKS_PER_SECOND
  }

  /** Decision and pending stamp carry the time of the observation. */
  predicate ClockSet(s: State, o: Observation) {
    s.currentTicks == o.timestampTicks
  }

  lemma RequestOrHoldKeeps(s: State, o: Observation, p: Proposal)
    requires Deciding(s) && Admitted(o) && ProposalOk(s, p) && ClockSet(s, o)
    ensures Holds(RequestOrHold(s, o, p).state)
  {
    hide RoundRatio, RepeatedAlternation;
    FailKeeps(s, TimestampBackward);
    FailKeeps(s, LowEfficiencyPath);
  }

  lemma OrdinaryRequestKeeps(s: State, o: Observation, delta: int, path: Path, phaseTerm: int, resetDebt: bool,
                             enforcePhase: bool, projection: Projection)
    requires Deciding(s) && Admitted(o) && ClockSet(s, o)
    requires Abs(delta) <= s.policy.maximumStep && InRange(s.policy, s.appliedCode + delta)
    ensures Holds(OrdinaryRequest(s, o, delta, path, phaseTerm, resetDebt, enforcePhase, projection).state)
  {
    hide RequestOrHold, RoundRatio, Holds, Deciding;
    ResetKeeps(s, !resetDebt);
    ResetFrame(s, !resetDebt);
    RequestOrHoldKeeps(Reset(s, !resetDebt), o,
                       Proposal(delta, path, s.policy.maximumStep, 0, 0, phaseTerm, phaseTerm, enforcePhase, false,
                         projection));
  }

  lemma PersistedKeeps(s: State, o: Observation, sign: int)
    requires Admitted(o) && Deciding(s) && sign in {1, -1}
    ensures Deciding(Persisted(s, o, sign)) && 1 <= Persisted(s, o, sign).persistence.count <= 2
    ensures Persisted(s, o, sign).appliedCode == s.appliedCode && Persisted(s, o, sign).currentTicks == s.currentTicks
  {
    hide Deciding, Holds, IdentityOf;
    var r := if s.persistence.count != 0 && s.persistence.sign != sign then Reset(s, false) else s;
    ResetKeeps(s, false);
    CountBounds(r);
    WindowKeeps(r, Persisted(s, o, sign).persistence);
    assert Persisted(s, o, sign) == r.(persistence := Persisted(s, o, sign).persistence);
  }

  lemma CountBounds(s: State)
    requires Deciding(s)
    ensures PersistenceBounded(s.persistence)
  {
  }

  /** The firmware's state after a source gap. */
  function GapState(s: State, o: Observation): State {
    if CentreSign(o) == 0 then GapWindow(s, o).(persistence := NO_PERSISTENCE) else GapWindow(s, o)
  }

  lemma GapRestartState(s: State, o: Observation, projection: Projection)
    requires s.failReason == None
    ensures Settle(GapRestart(s, o, projection)).state == GapState(s, o)
  {
    hide CentreSign, GapWindow;
    GapWindowSign(s, o);
  }

  lemma GapWindowSign(s: State, o: Observation)
    ensures GapWindow(s, o).persistence == Persistence(CentreSign(o), 1, Some(IdentityOf(o)), Some(o.closing))
    ensures GapWindow(s, o).failReason == s.failReason
  {
    hide CentreSign, IdentityOf;
  }

  lemma GapStateKeeps(s: State, o: Observation)
    requires Admitted(o) && Deciding(s)
    ensures Deciding(GapState(s, o))
  {
    hide Deciding, Holds, CentreSign, Reset, IdentityOf;
    var sign := CentreSign(o);
    SignRange(o);
    ResetKeeps(s, false);
    if sign != 0 {
      var p := Persistence(sign, 1, Some(IdentityOf(o)), Some(o.closing));
      WindowKeeps(s, p);
      WindowKeeps(Reset(s, false), p);
    } else {
      WindowKeeps(Reset(s, false), NO_PERSISTENCE);
    }
  }

  lemma SignRange(o: Observation)
    ensures CentreSign(o) in {-1, 0, 1}
  {
  }

  lemma DecidingHolds(s: State)
    requires Deciding(s)
    ensures Holds(s) && s.failReason == None && s.pending == None && !s.responsePending
  {
  }

  lemma MaintenanceWindowKeeps(s: State, o: Observation, hold: Option<Reason>, projection: Projection)
    requires Deciding(s) && Admitted(o) && ClockSet(s, o) && o.appliedCode == s.appliedCode
    ensures Holds(MaintenanceWindow(Bits32, s, o, hold, projection).state)
  {
    hide RequestOrHold, RoundRatio, Persisted, Cap, MaintenanceProposal;
    ResetKeeps(s, false);
    if CentreSign(o) != 0 {
      PersistedKeeps(s, o, CentreSign(o));
      var s' := Persisted(s, o, CentreSign(o));
      FailKeeps(s', TimestampBackward);
      MaintenanceProposalOk(s', o, projection);
      RequestOrHoldKeeps(s', o, MaintenanceProposal(s', o, Cap(Bits32, s', Centre(o), o.appliedCode), projection));
    }
  }

  lemma MaintenanceDecideKeeps(s: State, o: Observation, hold: Option<Reason>, projection: Projection)
    requires Deciding(s) && Admitted(o) && ClockSet(s, o) && o.appliedCode == s.appliedCode
    requires WindowOnlyHold(hold)
    ensures Holds(Settle(MaintenanceDecide(Bits32, s, o, hold, projection)).state)
  {
    hide MaintenanceWindow, GapRestart, GapState, Holds, Deciding;
    MaintenanceWindowKeeps(s, o, hold, projection);
    WindowNeverGap(Bits32, s, o, hold, projection);
    DecidingHolds(s);
    GapRestartState(s, o, projection);
    GapStateKeeps(s, o);
    DecidingHolds(GapState(s, o));
  }

  /** Only the gap restart itself is settled. */
  lemma WindowNeverGap(w: Width, s: State, o: Observation, hold: Option<Reason>, projection: Projection)
    requires WindowOnlyHold(hold)
    ensures MaintenanceWindow(w, s, o, hold, projection).decision.reason != SourceGapRestart
  {
    hide Persisted, Cap, MaintenanceProposal, RepeatedAlternation, CentreSign;
  }

  lemma SettleKeeps(out: Outcome)
    requires Holds(out.state)
    ensures Holds(Settle(out).state)
  {
    hide DirectionsOk, PathBounded, PolicyAccepted, InRange, DemandBounded, RoundRatio;
  }

  lemma ControlDecideKeeps(s: State, o: Observation, hold: Option<Reason>)
    requires Deciding(s) && Admitted(o) && ClockSet(s, o) && o.appliedCode == s.appliedCode && WindowOnlyHold(hold)
    ensures Holds(Settle(ControlDecide(Bits32, s, o, hold)).state)
  {
    hide MaintenanceDecide, OrdinaryRequest, LimitedDelta, CombinedDemand, FrequencyDemand, Holds, Deciding, Reset,
      Settle;
    DropPhaseDebtKeeps(s);
    ResetKeeps(s, false);
    DecidingHolds(Reset(s, false));
    DecidingHolds(DropPhaseDebt(s));
    DropPhaseDebtFrame(s);
    if !o.phaseValid {
      var r := DropPhaseDebt(s);
      var (delta, projection) := OrdinaryDelta(r, o, false);
      LimitedDeltaOk(r, CombinedDemand(o, false));
      OrdinaryRequestKeeps(r, o, delta, Degraded, 0, false, false, projection);
      SettleKeeps(ControlDecide(Bits32, s, o, hold));
    } else {
      var (delta, projection) := OrdinaryDelta(s, o, true);
      LimitedDeltaOk(s, CombinedDemand(o, true));
      if !o.tightInside || projection.phaseMaterial {
        OrdinaryRequestKeeps(s, o, delta, DirectPath(o), PhaseCentre(o), true, true, projection);
        SettleKeeps(ControlDecide(Bits32, s, o, hold));
      } else {
        MaintenanceDecideKeeps(s, o, hold, projection);
      }
    }
  }

  lemma DropPhaseDebtFrame(s: State)
    ensures var r := DropPhaseDebt(s);
            r.policy == s.policy && r.appliedCode == s.appliedCode && r.currentTicks == s.currentTicks
  {
  }

  lemma IdentityChangeKeeps(s: State, o: Observation)
    requires Deciding(s)
    ensures var r := IdentityChange(s, o);
            && Holds(r) && (r.failReason == None ==> Deciding(r))
            && r.appliedCode == s.appliedCode && r.currentTicks == s.currentTicks
  {
    hide Holds, Deciding;
    DecidingHolds(s);
    ResetKeeps(s, false);
    ResetFrame(s, false);
    DecidingHolds(Reset(s, false));
    DropPhaseDebtKeeps(s);
    DropPhaseDebtFrame(s);
    DecidingHolds(DropPhaseDebt(s));
    FailKeeps(s, ContradictoryApplication);
  }

  lemma AdvanceKeeps(s: State, o: Observation)
    requires Admitted(o) && Deciding(s)
    ensures var (r, hold) := AdvanceRequalification(s, o);
            && Deciding(r) && r.appliedCode == s.appliedCode && r.currentTicks == s.currentTicks
  {
    hide DirectionsOk, PathBounded, PolicyAccepted, InRange, PendingOk;
  }

  lemma QualifiedDecideKeeps(s: State, o: Observation)
    requires Deciding(s) && Admitted(o) && ClockSet(s, o) && o.appliedCode == s.appliedCode
    ensures Holds(Settle(QualifiedDecide(Bits32, s, o)).state)
  {
    hide IdentityChange, AdvanceRequalification, ControlDecide, Holds, Deciding, Settle, Reset;
    IdentityChangeKeeps(s, o);
    var r := IdentityChange(s, o);
    if r.failReason == None && o.authorityValid && o.settled {
      AdvanceKeeps(r, o);
      var (r', hold) := AdvanceRequalification(r, o);
      DecidingHolds(r');
      if WindowOnlyHold(hold) {
        ControlDecideKeeps(r', o, hold);
      } else {
        SettleKeeps(QualifiedDecide(Bits32, s, o));
      }
    } else {
      if r.failReason == None {
        ResetKeeps(r, true);
        DecidingHolds(Reset(r, true));
      }
      SettleKeeps(QualifiedDecide(Bits32, s, o));
    }
  }

  lemma FrontierDecideKeeps(s: State, o: Observation)
    requires Holds(s) && s.failReason == None && Admitted(o) && ClockSet(s, o)
    ensures Holds(Settle(FrontierDecide(Bits32, s, o)).state)
  {
    hide QualifiedDecide, Holds, Deciding, Settle, EnterHold, FailStatic;
    FailKeeps(s, ContradictoryApplication);
    if s.pending == None {
      EnterHoldKeeps(s);
    }
    if s.pending == None && !s.responsePending && o.metadataQualified && (s.metadataHold ==> s.metadataRequalified)
       && o.appliedCode == s.appliedCode && o.dacEpoch == s.dacEpoch {
      HoldsDeciding(s);
      QualifiedDecideKeeps(s, o);
    } else {
      SettleKeeps(FrontierDecide(Bits32, s, o));
    }
  }

  lemma HoldsDeciding(s: State)
    requires Holds(s) && s.failReason == None && s.pending == None && !s.responsePending
    ensures Deciding(s)
  {
  }

  lemma SequenceBound(s: State)
    requires Holds(s)
    ensures s.decisionSequence <= MAXIMUM_U64
  {
  }

  lemma DecideKeeps(s: State, o: Observation)
    requires Holds(s) && Typed(o)
    ensures Holds(F.Decide(s, o).state)
  {
    hide FrontierDecide, Holds, Settle, ExactSpan, FailStatic;
    SequenceBound(s);
    FailKeeps(s, DecisionIdentityExhausted);
    if s.decisionSequence != MAXIMUM_U64 {
      ObservedKeeps(s, o);
      var r := Observed(s, o);
      FailKeeps(r, InvalidFrontier);
      FailKeeps(r, TimestampMismatch);
      if r.failReason == None && GoodClock(o) && ValidFrontier(o) && ExactSpan(o) {
        FrontierDecideKeeps(r, o);
      } else if r.failReason.Some? || !GoodClock(o) || !ValidFrontier(o) {
        SettleKeeps(C.Decide(Bits32, s, o));
      }
    }
  }

  // ---- transaction -----------------------------------------------------------------------

  lemma CommitKeeps(s: State, code: int, dacEpoch: int)
    requires Holds(s) && s.pending.Some? && code == s.pending.value.decision.code && InU64(dacEpoch)
    ensures Holds(Commit(s, s.pending.value, code, dacEpoch))
  {
    hide RoundRatio, ResidualDebt;
    ResidualDebtBounded(s.debt, s.pending.value.decision);
  }

  lemma ConfirmKeeps(s: State, d: Decision, code: int, dacEpoch: int, exact: bool)
    requires Holds(s)
    ensures Holds(F.Confirm(s, d, code, dacEpoch, exact).state)
  {
    hide Holds, Commit, FailStatic, MatchesSnapshot;
    FailKeeps(s, UnexpectedApplication);
    FailKeeps(s, InexactConsumer);
    EpochBound(s);
    if s.pending.Some? && code == s.pending.value.decision.code && dacEpoch == (s.dacEpoch + 1) % WORD {
      CommitKeeps(s, code, dacEpoch);
    }
  }

  lemma EpochBound(s: State)
    requires Holds(s)
    ensures InU64(s.dacEpoch) && InU64((s.dacEpoch + 1) % WORD)
  {
  }

  /** The C types of an event. */
  predicate EventTyped(e: Event) {
    match e
    case Observe(o) => Typed(o)
    case MetadataFresh(epoch, ordinal) => InU64(epoch) && InU64(ordinal)
    case SetupBound(ticks) => InU64(ticks)
    case _ => true
  }

  lemma RejectKeeps(s: State)
    requires Holds(s)
    ensures Holds(F.Reject(s).state)
  {
    hide DirectionsOk, PathBounded, PolicyAccepted, InRange, PendingOk;
  }

  lemma CompleteKeeps(s: State, freshExact: bool)
    requires Holds(s)
    ensures Holds(F.Complete(s, freshExact).state)
  {
    hide DirectionsOk, PathBounded, PolicyAccepted, InRange, PendingOk;
  }

  lemma ActivateKeeps(s: State)
    requires Holds(s)
    ensures Holds(F.Activate(s).state)
  {
    hide Holds, Reset, FailStatic;
    FailKeeps(s, ActivationWithTransaction);
    if s.pending == None {
      ResetHolds(s, false);
    }
  }

  lemma MetadataKeeps(s: State, epoch: int, ordinal: int)
    requires Holds(s)
    ensures Holds(F.EnterMetadataHold(s).state)
    ensures Holds(F.RequalifyMetadata(s, epoch, ordinal).state)
  {
    hide DirectionsOk, PathBounded, PolicyAccepted, InRange, PendingOk;
  }

  lemma BindSetupKeeps(s: State, ticks: int)
    requires Holds(s) && InU64(ticks)
    ensures Holds(F.BindSetup(s, ticks).state)
  {
    hide DirectionsOk, PathBounded, PolicyAccepted, InRange, PendingOk;
  }

  /** Every call, successful or refused, keeps the invariant. */
  lemma StepKeeps(s: State, e: Event)
    requires Holds(s) && EventTyped(e)
    ensures Holds(F.Step(s, e).state)
  {
    hide Holds, F.Decide, F.Confirm, F.Reject, F.Complete, F.Activate, F.EnterMetadataHold, F.RequalifyMetadata,
      F.BindSetup;
    match e
    case Observe(o) => DecideKeeps(s, o);
    case Applied(d, code, dacEpoch, exact) => ConfirmKeeps(s, d, code, dacEpoch, exact);
    case Expire => RejectKeeps(s);
    case Respond(freshExact) => CompleteKeeps(s, freshExact);
    case MetadataLost => MetadataKeeps(s, 0, 0);
    case MetadataFresh(epoch, ordinal) => MetadataKeeps(s, epoch, ordinal);
    case PolicyActivated => ActivateKeeps(s);
    case SetupBound(ticks) => BindSetupKeeps(s, ticks);
  }

  lemma InitialHolds(policy: Policy, code: int, dacEpoch: int)
    requires PolicyAccepted(policy) && InRange(policy, code) && InU64(dacEpoch)
    ensures Holds(InitialState(policy, code, dacEpoch))
  {
  }
}
