/**
 The host's adaptive FLL/PLL controller as a transition system over unbounded integers and
 exact rationals.  The firmware engine is proved against these functions.
 */
module Controller {
  import opened Words
  import opened Rounding

  const PICO: int := 1_000_000_000_000
  const DEBT_LIMIT: int := 500_000_000_000
  const TICKS_PER_SECOND: int := 1_000_000
  /** The frozen controller gain, codes per hertz per decision. */
  const GAIN: real := 2884.5027706464516
  const ESTIMATOR_SPAN_S: real := 600.0
  const PLANT_GAIN: int := 173_340_101

  // ---- data ------------------------------------------------------------------------------

  datatype Policy = Policy(maximumStep: int, minimumCode: int, maximumCode: int, minimumCadenceS: int,
                           maximumApplications: int, maximumMovement: int)

  datatype Observation = Observation(
    timestampS: int, timestampTicks: int, captureSession: int, acceptanceEpoch: int, opening: int, closing: int,
    dacEpoch: int, appliedCode: int, edgeError: int, tightInside: bool, phaseEpoch: int, phaseCycles: int,
    estimator: int, phaseValid: bool, authorityValid: bool, settled: bool, cadenceEligible: bool,
    metadataQualified: bool)

  datatype Identity = Identity(captureSession: int, acceptanceEpoch: int, appliedCode: int, dacEpoch: int,
                               phaseEpoch: int, phaseValid: bool, estimator: int)

  datatype Debt = Debt(fll: int, pll: int) {
    function Total(): int {
      fll + pll
    }
  }

  datatype Path = Degraded | OutsideTight | PhaseMaterial | Maintenance

  datatype Reason =
    | RequestReady(path: Path, repeatedAlternation: bool)
    | TimestampMismatch | InvalidFrontier | ContradictoryApplication | TimestampBackward | LowEfficiencyPath
    | RequestPendingHold | ResponsePendingHold | MetadataHold | AuthorityHold | SettlingHold
    | RequalificationOrdinalMissing | RequalificationEpochHold | RequalificationOrdinalHold
    | RequalificationOverlapHold | RequalificationWindowHold
    | CadenceHold | CoherenceHold | ZeroDeltaHold | ApplicationBudgetHold | MovementBudgetHold
    | SourceOverlapHold | SourceGapRestart | ZeroContaining | FirstIntervalHold
    | UnexpectedApplication | InexactConsumer | InvalidRejection | ActivationWithTransaction
    | DecisionIdentityExhausted

  datatype Projection = Projection(counterfactual: int, phaseMaterial: bool, stepLimited: bool, rangeClamped: bool,
                                   cadenceLimited: bool, countLimited: bool, movementLimited: bool)

  const NO_PROJECTION: Projection := Projection(0, false, false, false, false, false, false)

  datatype Decision = Decision(sequence: int, reason: Reason, delta: int, code: int, cap: int, persistenceCount: int,
                               raw: int, fll: int, pll: int, committedDebt: int, maintenance: bool, ticks: int,
                               projection: Projection)

  datatype Stamp = Stamp(seconds: int, ticks: int)

  datatype Pending = Pending(decision: Decision, stamp: Stamp)

  datatype Requalification = Requalification(epoch: Option<int>, ordinal: Option<int>, windowCount: int,
                                             lastClosing: Option<int>, identity: Option<Identity>)

  datatype Persistence = Persistence(sign: int, count: int, identity: Option<Identity>, lastClosing: Option<int>)

  datatype State = State(
    policy: Policy, appliedCode: int, dacEpoch: int, applicationCount: int, movement: int,
    lastApplication: Option<Stamp>, chatterOrigin: int, directions: seq<int>, debt: Debt,
    persistence: Persistence, pending: Option<Pending>, responsePending: bool,
    metadataHold: bool, metadataRequalified: bool, requalification: Requalification,
    failReason: Option<Reason>, decisionSequence: int, currentTicks: int)

  const NO_REQUALIFICATION: Requalification := Requalification(None, None, 0, None, None)
  const NO_PERSISTENCE: Persistence := Persistence(0, 0, None, None)

  datatype Outcome = Outcome(state: State, decision: Decision)

  function InitialState(policy: Policy, code: int, dacEpoch: int): State {
    State(policy, code, dacEpoch, 0, 0, None, code, [], Debt(0, 0), NO_PERSISTENCE, None, false, false, false,
          NO_REQUALIFICATION, None, 0, 0)
  }

  function IdentityOf(o: Observation): Identity {
    Identity(o.captureSession, o.acceptanceEpoch, o.appliedCode, o.dacEpoch, o.phaseEpoch, o.phaseValid, o.estimator)
  }

  // ---- arithmetic ------------------------------------------------------------------------

  function Clamp(x: int, low: int, high: int): int {
    if x < low then low else if x > high then high else x
  }

  function PhaseCentre(o: Observation): int {
    Clamp(-o.phaseCycles, -36, 36)
  }

  function FrequencyCentre(o: Observation): int {
    -36 * o.edgeError
  }

  function Centre(o: Observation): int {
    FrequencyCentre(o) + PhaseCentre(o)
  }

  /** The sign of an interval that excludes zero, else 0. */
  function Sign(lower: int, upper: int): int {
    if lower > 0 then 1 else if upper < 0 then -1 else 0
  }

  function CentreSign(o: Observation): int {
    Sign(Centre(o) - 18, Centre(o) + 18)
  }

  /** The edge of the interval nearest zero. */
  function NearestEdge(centre: int): int {
    if centre > 0 then centre - 18 else -(centre + 18)
  }

  /** How a machine forms the difference of two codes: exactly, or wrapped to 32 bits. */
  datatype Width = Exact | Bits32

  function CodeDifference(w: Width, a: int, b: int): int {
    match w
    case Exact => a - b
    case Bits32 => (a - b + 0x8000_0000) % WORD32 - 0x8000_0000
  }

  /** The codes left between a code and the end of the range it moves toward. */
  function Headroom(w: Width, p: Policy, sign: int, code: int): int {
    if sign > 0 then CodeDifference(w, p.maximumCode, code) else CodeDifference(w, code, p.minimumCode)
  }

  /** The largest step that cannot carry the plant across zero, within step, budget and range. */
  function Cap(w: Width, s: State, centre: int, code: int): int {
    var sign := Sign(centre - 18, centre + 18);
    if sign == 0 then 0 else
    var nearest := if sign > 0 then centre - 18 else -(centre + 18);
    var remaining := if s.policy.maximumMovement == 0 then s.policy.maximumStep
                     else Max(0, s.policy.maximumMovement - s.movement);
    var cap := Min(s.policy.maximumStep, Min(nearest * PICO / (21_600 * PLANT_GAIN), remaining));
    Max(0, Min(cap, Headroom(w, s.policy, sign, code)))
  }

  function Min(a: int, b: int): int {
    if a <= b then a else b
  }

  function Max(a: int, b: int): int {
    if a >= b then a else b
  }

  /** A rational rounded half away from zero. */
  function RoundReal(v: real): int {
    if v >= 0.0 then (v + 0.5).Floor else -((-v + 0.5).Floor)
  }

  datatype Limited = Limited(delta: int, stepLimited: bool, rangeClamped: bool)

  /** Rounds, then limits the step, then clamps the code. */
  function LimitedDelta(s: State, value: real): Limited {
    var rounded := RoundReal(value);
    var step := Clamp(rounded, -s.policy.maximumStep, s.policy.maximumStep);
    var requested := Clamp(s.appliedCode + step, s.policy.minimumCode, s.policy.maximumCode);
    Limited(requested - s.appliedCode, step != rounded, requested != s.appliedCode + step)
  }

  function FrequencyDemand(o: Observation): real {
    GAIN * (-o.edgeError as real / ESTIMATOR_SPAN_S)
  }

  function CombinedDemand(o: Observation, phaseEnabled: bool): real {
    FrequencyDemand(o) + GAIN * ((if phaseEnabled then PhaseCentre(o) else 0) as real / 21_600.0)
  }

  /** The ordinary path's projection fields and combined delta. */
  function OrdinaryDelta(s: State, o: Observation, phaseEnabled: bool): (int, Projection) {
    var combined := LimitedDelta(s, CombinedDemand(o, phaseEnabled));
    var frequency := LimitedDelta(s, FrequencyDemand(o));
    (combined.delta,
     Projection(frequency.delta, phaseEnabled && combined.delta != frequency.delta, combined.stepLimited,
                combined.rangeClamped, false, false, false))
  }

  // ---- small transitions -----------------------------------------------------------------

  function Reset(s: State, preserveDebt: bool): State {
    s.(debt := if preserveDebt then s.debt else Debt(0, 0), persistence := NO_PERSISTENCE)
  }

  function FailStatic(s: State, reason: Reason): State {
    s.(failReason := Some(reason), pending := None, responsePending := false)
  }

  function DropPhaseDebt(s: State): State {
    Reset(s.(debt := Debt(s.debt.fll, 0)), true)
  }

  function Decide0(s: State, reason: Reason): Decision {
    MakeDecision(s, reason, 0, 0, 0, 0, 0, false, NO_PROJECTION)
  }

  function MakeDecision(s: State, reason: Reason, delta: int, cap: int, raw: int, fll: int, pll: int,
                        maintenance: bool, projection: Projection): Decision {
    Decision(s.decisionSequence, reason, delta, s.appliedCode + delta, cap, s.persistence.count, raw, fll, pll,
             s.debt.Total(), maintenance, s.currentTicks, projection)
  }

  function Hold(s: State, reason: Reason): Outcome {
    Outcome(s, Decide0(s, reason))
  }

  function HoldProjected(s: State, reason: Reason, cap: int, projection: Projection): Outcome {
    Outcome(s, MakeDecision(s, reason, 0, cap, 0, 0, 0, false, projection))
  }

  function Fail(s: State, reason: Reason): Outcome {
    var s := FailStatic(s, reason);
    Outcome(s, Decide0(s, reason))
  }

  // ---- gates -----------------------------------------------------------------------------

  datatype Cadence = Ready | Held | Backward

  function CadenceStatus(s: State, o: Observation): Cadence {
    if !o.cadenceEligible then Held
    else if s.lastApplication == None then Ready
    else if o.timestampTicks < s.lastApplication.value.ticks then Backward
    else if o.timestampTicks - s.lastApplication.value.ticks < s.policy.minimumCadenceS * TICKS_PER_SECOND then Held
    else Ready
  }

  function Direction(delta: int): int {
    if delta > 0 then 1 else -1
  }

  function Reversals(directions: seq<int>): nat {
    if |directions| < 2 then 0
    else (if directions[0] != directions[1] then 1 else 0) + Reversals(directions[1..])
  }

  function LastThree(directions: seq<int>): seq<int> {
    if |directions| <= 3 then directions else directions[|directions| - 3..]
  }

  /** The last three applied directions and the prospective one alternate throughout. */
  predicate RepeatedAlternation(s: State, delta: int) {
    var prospective := LastThree(s.directions) + [Direction(delta)];
    |prospective| == 4 && Reversals(prospective) == 3
  }

  predicate LowEfficiency(s: State, delta: int) {
    var path := s.movement + Abs(delta);
    var net := Abs(s.appliedCode + delta - s.chatterOrigin);
    s.policy.maximumMovement != 0 && path >= 42 && 4 * net <= path
  }

  /** What a request would carry, before the last gates. */
  datatype Proposal = Proposal(delta: int, path: Path, cap: int, raw: int, fll: int, pll: int, phaseTerm: int,
                               enforcePhase: bool, maintenance: bool, projection: Projection)

  function HoldProposal(s: State, p: Proposal, reason: Reason, projection: Projection): Decision {
    MakeDecision(s, reason, 0, p.cap, p.raw, p.fll, p.pll, false, projection)
  }

  function RequestOrHold(s: State, o: Observation, p: Proposal): Outcome {
    match CadenceStatus(s, o)
    case Backward => Fail(s, TimestampBackward)
    case Held => Outcome(s, HoldProposal(s, p, CadenceHold, p.projection.(cadenceLimited := true)))
    case Ready => RequestWhenReady(s, o, p)
  }

  function RequestWhenReady(s: State, o: Observation, p: Proposal): Outcome {
    if p.delta != 0 && p.enforcePhase && p.phaseTerm != 0 && p.delta * p.phaseTerm < 0 then
      Outcome(s, HoldProposal(s, p, CoherenceHold, p.projection))
    else if p.delta == 0 then
      Outcome(s, HoldProposal(s, p, ZeroDeltaHold, p.projection))
    else if s.policy.maximumApplications != 0 && s.applicationCount >= s.policy.maximumApplications then
      Outcome(s, HoldProposal(s, p, ApplicationBudgetHold, p.projection.(countLimited := true)))
    else if s.policy.maximumMovement != 0 && s.movement + Abs(p.delta) > s.policy.maximumMovement then
      Outcome(s, HoldProposal(s, p, MovementBudgetHold, p.projection.(movementLimited := true)))
    else if LowEfficiency(s, p.delta) then
      var s := FailStatic(s, LowEfficiencyPath);
      Outcome(s, HoldProposal(s, p, LowEfficiencyPath, p.projection))
    else
      Request(s, o, p)
  }

  function Request(s: State, o: Observation, p: Proposal): Outcome {
    var reason := RequestReady(p.path, RepeatedAlternation(s, p.delta));
    var decision := MakeDecision(s, reason, p.delta, p.cap, p.raw, p.fll, p.pll, p.maintenance, p.projection);
    Outcome(s.(pending := Some(Pending(decision, Stamp(o.timestampS, o.timestampTicks)))), decision)
  }

  /** The path of a direct-control request whose phase is valid. */
  function DirectPath(o: Observation): Path {
    if !o.tightInside then OutsideTight else PhaseMaterial
  }

  /** A bounded direct-control request is always a maintenance boundary. */
  function OrdinaryRequest(s: State, o: Observation, delta: int, path: Path, phaseTerm: int, resetDebt: bool,
                           enforcePhase: bool, projection: Projection): Outcome {
    var s := Reset(s, !resetDebt);
    var p := Proposal(delta, path, s.policy.maximumStep, 0, 0, phaseTerm, phaseTerm, enforcePhase, false, projection);
    RequestOrHold(s, o, p)
  }

  // ---- metadata requalification ------------------------------------------------------------

  function Modular(x: int): int {
    x % WORD32
  }

  /** Not behind, in the modular order of accepted ordinals. */
  predicate AtOrAfter(candidate: int, reference: int) {
    Modular(candidate - reference) <= 0x7FFF_FFFF
  }

  function EnterHold(s: State): State {
    Reset(s.(metadataHold := true, metadataRequalified := false, requalification := NO_REQUALIFICATION), true)
  }

  function Requalify(s: State, epoch: int, ordinal: int): State {
    Reset(s.(metadataRequalified := true,
             requalification := Requalification(Some(epoch), Some(ordinal), 0, None, None)), true)
  }

  /** The window gate: the state after this window, and the hold it imposes, if any. */
  function AdvanceRequalification(s: State, o: Observation): (State, Option<Reason>) {
    var q := s.requalification;
    if !s.metadataHold || !s.metadataRequalified then (s, None)
    else if q.ordinal == None then
      (FailStatic(s, RequalificationOrdinalMissing), Some(RequalificationOrdinalMissing))
    else if Some(o.acceptanceEpoch) != q.epoch then (s, Some(RequalificationEpochHold))
    else if !AtOrAfter(o.opening, q.ordinal.value) then (s, Some(RequalificationOrdinalHold))
    else if q.lastClosing.Some? && !AtOrAfter(o.opening, q.lastClosing.value) then (s, Some(RequalificationOverlapHold))
    else
      var contiguous := q.lastClosing == Some(o.opening) && q.identity == Some(IdentityOf(o));
      var count := if contiguous then Min(2, q.windowCount + 1) else 1;
      if count < 2 then
        (s.(requalification := q.(windowCount := count, lastClosing := Some(o.closing),
                                  identity := Some(IdentityOf(o)))),
         Some(RequalificationWindowHold))
      else
        (s.(metadataHold := false, metadataRequalified := false,
            requalification := Requalification(None, None, count, None, None)),
         None)
  }

  // ---- maintenance -----------------------------------------------------------------------

  /** The persistence window after an observation whose interval excludes zero. */
  function Persisted(s: State, o: Observation, sign: int): State {
    var s := if s.persistence.count != 0 && s.persistence.sign != sign then Reset(s, false) else s;
    var p := s.persistence;
    var same := p.count != 0 && p.identity == Some(IdentityOf(o)) && p.sign == sign;
    s.(persistence := Persistence(sign, if same then Min(2, p.count + 1) else 1, Some(IdentityOf(o)), Some(o.closing)))
  }

  /** A source gap restarts the window at this observation, whatever its sign. */
  function GapWindow(s: State, o: Observation): State {
    var sign := CentreSign(o);
    var s := if sign == 0 || (s.persistence.count != 0 && sign != s.persistence.sign) then Reset(s, false) else s;
    s.(persistence := Persistence(sign, 1, Some(IdentityOf(o)), Some(o.closing)))
  }

  function GapRestart(s: State, o: Observation, projection: Projection): Outcome {
    HoldProjected(GapWindow(s, o), SourceGapRestart, 0, projection)
  }

  function MaintenanceProposal(s: State, o: Observation, cap: int, projection: Projection): Proposal {
    var raw := CentreToPicocodes(Centre(o));
    var fll := CentreToPicocodes(FrequencyCentre(o));
    var rounded := RoundRatio(raw + s.debt.Total(), PICO);
    Proposal(Clamp(rounded, -cap, cap), Maintenance, cap, raw, fll, raw - fll, raw - fll, true, true, projection)
  }

  function MaintenanceWindow(w: Width, s: State, o: Observation, hold: Option<Reason>,
                             projection: Projection): Outcome {
    var sign := CentreSign(o);
    if sign == 0 then
      HoldProjected(Reset(s, false), ZeroContaining, 0, projection)
    else
      var s := Persisted(s, o, sign);
      var cap := Cap(w, s, Centre(o), o.appliedCode);
      if hold.Some? then HoldProjected(s, hold.value, cap, projection)
      else match CadenceStatus(s, o)
        case Backward => Fail(s, TimestampBackward)
        case Held => HoldProjected(s, CadenceHold, cap, projection.(cadenceLimited := true))
        case Ready =>
          if s.persistence.count < 2 then HoldProjected(s, FirstIntervalHold, cap, projection)
          else RequestOrHold(s, o, MaintenanceProposal(s, o, cap, projection))
  }

  function MaintenanceDecide(w: Width, s: State, o: Observation, hold: Option<Reason>,
                             projection: Projection): Outcome {
    var last := s.persistence.lastClosing;
    if last.Some? && !AtOrAfter(o.opening, last.value) then HoldProjected(s, SourceOverlapHold, 0, projection)
    else if last.Some? && Modular(o.opening - last.value) > 0 then GapRestart(s, o, projection)
    else MaintenanceWindow(w, s, o, hold, projection)
  }

  // ---- decide ----------------------------------------------------------------------------

  /** Phase-degraded, outside-tight and phase-material paths, then maintenance. */
  function ControlDecide(w: Width, s: State, o: Observation, hold: Option<Reason>): Outcome {
    if !o.phaseValid then
      var s := DropPhaseDebt(s);
      var (delta, projection) := OrdinaryDelta(s, o, false);
      if hold.Some? then HoldProjected(s, hold.value, 0, projection)
      else OrdinaryRequest(s, o, delta, Degraded, 0, false, false, projection)
    else
      var (delta, projection) := OrdinaryDelta(s, o, true);
      if !o.tightInside || projection.phaseMaterial then
        if hold.Some? then HoldProjected(Reset(s, false), hold.value, 0, projection)
        else OrdinaryRequest(s, o, delta, DirectPath(o), PhaseCentre(o), true, true, projection)
      else MaintenanceDecide(w, s, o, hold, projection)
  }

  /** A change of identity drops what no longer describes the plant. */
  function IdentityChange(s: State, o: Observation): State {
    var identity := IdentityOf(o);
    if s.persistence.identity == None || s.persistence.identity == Some(identity) then s
    else
      var was := s.persistence.identity.value;
      if identity.captureSession != was.captureSession || identity.acceptanceEpoch != was.acceptanceEpoch
         || identity.estimator != was.estimator then Reset(s, false)
      else if identity.appliedCode != was.appliedCode || identity.dacEpoch != was.dacEpoch then
        FailStatic(s, ContradictoryApplication)
      else DropPhaseDebt(s)
  }

  predicate WindowOnlyHold(hold: Option<Reason>) {
    hold == None || hold == Some(RequalificationWindowHold)
  }

  /** From a matching application on: identity, authority, settling and requalification. */
  function QualifiedDecide(w: Width, s: State, o: Observation): Outcome {
    var s := IdentityChange(s, o);
    if s.failReason.Some? then Hold(s, s.failReason.value)
    else if !o.authorityValid then Hold(Reset(s, true), AuthorityHold)
    else if !o.settled then Hold(Reset(s, true), SettlingHold)
    else
      var (s, hold) := AdvanceRequalification(s, o);
      if s.failReason.Some? then Hold(s, s.failReason.value)
      else if !WindowOnlyHold(hold) then Hold(s, hold.value)
      else ControlDecide(w, s, o, hold)
  }

  function MetadataDecide(w: Width, s: State, o: Observation): Outcome {
    if !o.metadataQualified then
      Hold(if !s.metadataHold || s.metadataRequalified then EnterHold(s) else s, MetadataHold)
    else if s.metadataHold && !s.metadataRequalified then Hold(s, MetadataHold)
    else if o.appliedCode != s.appliedCode || o.dacEpoch != s.dacEpoch then Fail(s, ContradictoryApplication)
    else QualifiedDecide(w, s, o)
  }

  function FrontierDecide(w: Width, s: State, o: Observation): Outcome {
    if s.pending.Some? then Hold(s, RequestPendingHold)
    else if s.responsePending then Hold(s, ResponsePendingHold)
    else MetadataDecide(w, s, o)
  }

  predicate ValidFrontier(o: Observation) {
    0 < Modular(o.closing - o.opening) <= 0x7FFF_FFFF
  }

  /** Every call advances the sequence and the clock, even a fail-static one. */
  function Observed(s: State, o: Observation): State {
    s.(decisionSequence := s.decisionSequence + 1, currentTicks := o.timestampTicks)
  }

  /** One decision, by a machine of the given width. */
  function Decide(w: Width, s: State, o: Observation): Outcome {
    var s := Observed(s, o);
    if s.failReason.Some? then Hold(s, s.failReason.value)
    else if o.timestampS != o.timestampTicks / TICKS_PER_SECOND then Fail(s, TimestampMismatch)
    else if !ValidFrontier(o) then Fail(s, InvalidFrontier)
    else FrontierDecide(w, s, o)
  }

  // ---- transaction -----------------------------------------------------------------------

  /** The new state, and whether the call returned normally rather than raising. */
  datatype Transition = Transition(state: State, ok: bool)

  function Reject(s: State): Transition {
    if s.pending == None || s.responsePending then Transition(FailStatic(s, InvalidRejection), false)
    else Transition(s.(pending := None), true)
  }

  /** Shares the residual between the two debts in proportion to their candidates. */
  function ResidualDebt(debt: Debt, d: Decision): Debt {
    var residual := Clamp(d.raw + debt.Total() - d.delta * PICO, -DEBT_LIMIT, DEBT_LIMIT);
    var fllWeight, pllWeight := Abs(d.fll + debt.fll), Abs(d.pll + debt.pll);
    if fllWeight + pllWeight == 0 then Debt(residual, 0)
    else
      var fll := RoundRatio(residual * fllWeight, fllWeight + pllWeight);
      Debt(fll, residual - fll)
  }

  function SaturatingAdd(a: int, b: int): int {
    Min(0xFFFF_FFFF, a + b)
  }

  /** Commits a confirmed application. */
  function Commit(s: State, p: Pending, code: int, dacEpoch: int): State {
    var d := p.decision;
    s.(debt := if d.maintenance then ResidualDebt(s.debt, d) else Debt(0, 0),
       appliedCode := code, dacEpoch := dacEpoch,
       applicationCount := SaturatingAdd(s.applicationCount, 1),
       movement := SaturatingAdd(s.movement, Abs(d.delta)),
       lastApplication := Some(p.stamp),
       directions := s.directions + [Direction(d.delta)],
       pending := None, responsePending := true,
       persistence := NO_PERSISTENCE)
  }

  function Confirm(s: State, d: Decision, code: int, dacEpoch: int, exact: bool): Transition {
    if s.pending == None || s.pending.value.decision != d || d.delta == 0 then
      Transition(FailStatic(s, UnexpectedApplication), false)
    else if !exact || code != d.code || dacEpoch != s.dacEpoch + 1 then
      Transition(FailStatic(s, InexactConsumer), false)
    else
      Transition(Commit(s, s.pending.value, code, dacEpoch), true)
  }

  function Complete(s: State, freshExact: bool): State {
    if s.responsePending && freshExact then s.(responsePending := false) else s
  }

  function Activate(s: State): Transition {
    if s.pending.Some? || s.responsePending then Transition(FailStatic(s, ActivationWithTransaction), false)
    else Transition(Reset(s, false), true)
  }

  function RequalifyMetadata(s: State, epoch: int, ordinal: int): Transition {
    if !s.metadataHold || epoch <= 0 || !(0 <= ordinal <= 0xFFFF_FFFF) then Transition(s, false)
    else Transition(Requalify(s, epoch, ordinal), true)
  }
}
