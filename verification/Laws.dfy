/**
 What a decision answers, told from the fields of the engine and the observation alone: one
 law for each path, with every gate in its order, and what becomes of debt and window.
 */
module Laws {
  import opened Words
  import opened Rounding
  import opened Controller
  import opened Firmware
  import opened Invariant
  import opened Demand
  import opened Cases
  import opened Safety
  import opened Windows
  import C = Controller
  import F = Firmware

  // ---- the window and the engine's own code --------------------------------------------------

  /** A recorded window was observed under the code and epoch the engine has now. */
  predicate Current(s: State) {
    s.persistence.identity.Some? ==>
      s.persistence.identity.value.appliedCode == s.appliedCode && s.persistence.identity.value.dacEpoch == s.dacEpoch
  }

  lemma StepKeepsCurrent(s: State, e: Event)
    requires Holds(s) && EventTyped(e) && Current(s)
    ensures Current(F.Step(s, e).state)
  {
    hide Holds, F.Decide, F.Confirm, Typed;
    StepWindow(s, e);
    match e
    case Observe(o) => DecisionEffect(s, o);
    case Applied(d, code, dacEpoch, exact) =>
      if !F.Confirm(s, d, code, dacEpoch, exact).ok {
        RefusedApplication(s, d, code, dacEpoch, exact);
      }
    case _ =>
  }

  // ---- conditions, read from fields ----------------------------------------------------------

  /** Modular distance, at least half the circle: the candidate is behind. */
  predicate IsBehind(candidate: int, reference: int) {
    (candidate - reference) % 0x1_0000_0000 >= 0x8000_0000
  }

  /** Engine and observation agree on everything but the measurement itself. */
  predicate InOrder(s: State, o: Observation) {
    && s.decisionSequence < 0xFFFF_FFFF_FFFF_FFFF && s.failReason == None
    && o.timestampS == o.timestampTicks / 1_000_000
    && o.opening <= 0xFFFF_FFFF && o.closing <= 0xFFFF_FFFF && (o.closing - o.opening) % 0x1_0000_0000 == 600
    && s.pending == None && !s.responsePending
    && o.metadataQualified && (s.metadataHold ==> s.metadataRequalified)
    && o.appliedCode == s.appliedCode && o.dacEpoch == s.dacEpoch
  }

  /** The gate is open, or this window opens it: it abuts the last one under the same identity. */
  predicate Opens(s: State, o: Observation) {
    s.metadataHold ==>
      var q := s.requalification;
      && q.epoch == Some(o.acceptanceEpoch) && q.ordinal.Some? && !IsBehind(o.opening, q.ordinal.value)
      && q.lastClosing == Some(o.opening) && q.identity == Some(IdentityOf(o))
  }

  /** The gate is closed and takes this window as the first of a pair. */
  predicate Waits(s: State, o: Observation) {
    var q := s.requalification;
    && s.metadataHold && !Opens(s, o)
    && q.epoch == Some(o.acceptanceEpoch) && q.ordinal.Some? && !IsBehind(o.opening, q.ordinal.value)
    && (q.lastClosing.Some? ==> !IsBehind(o.opening, q.lastClosing.value))
  }

  predicate Measurable(s: State, o: Observation) {
    InOrder(s, o) && o.authorityValid && o.settled && (Opens(s, o) || Waits(s, o))
  }

  /** The observation belongs to another session, acceptance epoch or estimator than the window. */
  predicate Foreign(i: Identity, o: Observation) {
    i.captureSession != o.captureSession || i.acceptanceEpoch != o.acceptanceEpoch || i.estimator != o.estimator
  }

  predicate NewPhase(i: Identity, o: Observation) {
    i.phaseEpoch != o.phaseEpoch || i.phaseValid != o.phaseValid
  }

  /** The debt after the identity check: none for a foreign window, no phase part for a new phase. */
  function CarriedDebt(s: State, o: Observation): Debt {
    match s.persistence.identity
    case None => s.debt
    case Some(i) => if Foreign(i, o) then Debt(0, 0) else if NewPhase(i, o) then Debt(s.debt.fll, 0) else s.debt
  }

  function CarriedWindow(s: State, o: Observation): Persistence {
    match s.persistence.identity
    case None => s.persistence
    case Some(i) => if Foreign(i, o) || NewPhase(i, o) then NO_PERSISTENCE else s.persistence
  }

  lemma IdentityCarries(s: State, o: Observation)
    requires Current(s) && o.appliedCode == s.appliedCode && o.dacEpoch == s.dacEpoch && s.failReason == None
    ensures var r := IdentityChange(s, o);
            && r.failReason == None && r.debt == CarriedDebt(s, o) && r.persistence == CarriedWindow(s, o)
            && r.metadataHold == s.metadataHold && r.metadataRequalified == s.metadataRequalified
            && r.requalification == s.requalification
  {
  }

  lemma AdvanceAnswers(s: State, o: Observation)
    requires Holds(s) && s.failReason == None && (s.metadataHold ==> s.metadataRequalified) && o.opening <= MAXIMUM_U32
    ensures var (r, hold) := AdvanceRequalification(s, o);
            && r.debt == s.debt && r.persistence == s.persistence
            && (hold == None <==> Opens(s, o)) && (hold == Some(RequalificationWindowHold) <==> Waits(s, o))
  {
    hide IdentityOf, PathBounded, PolicyAccepted, PendingOk, DebtBounded, CountsOk, DirectionsOk, PersistenceBounded;
  }

  /** The fields decide whether the measurement is reached, and what control then sees. */
  lemma MeasurableReaches(s: State, o: Observation)
    requires Holds(s) && Current(s) && Typed(o) && Measurable(s, o)
    ensures ReachesMeasurement(s, o)
    ensures var (g, hold) := Gated(s, o);
            && g.debt == CarriedDebt(s, o) && g.persistence == CarriedWindow(s, o)
            && (hold == None <==> Opens(s, o)) && (hold.Some? ==> hold == Some(RequalificationWindowHold))
            && Deciding(g) && Admitted(o) && ClockSet(g, o) && SameActuator(s, g)
  {
    hide Holds, Deciding, IdentityChange, AdvanceRequalification, Typed, Opens, Waits, CarriedDebt, CarriedWindow,
      Current,
      SameActuator;
    SequenceBound(s);
    ObservedKeeps(s, o);
    ObservedFrame(s, o);
    HoldsDeciding(Observed(s, o));
    ObservedCarries(s, o);
    IdentityCarries(Observed(s, o), o);
    IdentityChangeKeeps(Observed(s, o), o);
    SameGate(s, Qualified(s, o), o);
    AdvanceAnswers(Qualified(s, o), o);
    GatedSame(s, o);
  }

  lemma ObservedCarries(s: State, o: Observation)
    ensures Current(s) ==> Current(Observed(s, o))
    ensures CarriedDebt(Observed(s, o), o) == CarriedDebt(s, o)
            && CarriedWindow(Observed(s, o), o) == CarriedWindow(s, o)
  {
  }

  lemma SameGate(s: State, t: State, o: Observation)
    requires s.metadataHold == t.metadataHold && s.requalification == t.requalification
    ensures Opens(s, o) == Opens(t, o) && Waits(s, o) == Waits(t, o)
  {
  }

  // ---- the last gates --------------------------------------------------------------------------

  /** The last application is too recent. */
  predicate TooSoon(s: State, o: Observation) {
    s.lastApplication.Some?
    && 0 <= o.timestampTicks - s.lastApplication.value.ticks < s.policy.minimumCadenceS * 1_000_000
  }

  predicate BeforeLast(s: State, o: Observation) {
    s.lastApplication.Some? && o.timestampTicks < s.lastApplication.value.ticks
  }

  /** The last three directions alternate, and the movement reverses the last one. */
  predicate Alternates(directions: seq<int>, delta: int) {
    var n := |directions|;
    && n >= 3 && directions[n - 3] != directions[n - 2] && directions[n - 2] != directions[n - 1]
    && directions[n - 1] != (if delta > 0 then 1 else -1)
  }

  /** At least 42 codes of path, four times the net of which is no more than the path. */
  predicate Inefficient(s: State, delta: int) {
    var path, net := s.movement + Abs(delta), Abs(s.appliedCode + delta - s.chatterOrigin);
    s.policy.maximumMovement != 0 && path >= 42 && 4 * net <= path
  }

  predicate ApplicationsSpent(s: State) {
    s.policy.maximumApplications != 0 && s.applicationCount >= s.policy.maximumApplications
  }

  predicate MovementSpent(s: State, delta: int) {
    s.policy.maximumMovement != 0 && s.movement + Abs(delta) > s.policy.maximumMovement
  }

  /** Strictly opposite signs. */
  predicate Opposed(delta: int, part: int) {
    (delta > 0 && part < 0) || (delta < 0 && part > 0)
  }

  /** The engine stays live and asks for nothing. */
  predicate Withheld(out: Outcome, reason: Reason) {
    out.decision.reason == reason && out.decision.delta == 0 && out.state.failReason == None
  }

  /** The engine fails static. */
  predicate Stopped(out: Outcome, reason: Reason) {
    out.decision.reason == reason && out.decision.delta == 0 && out.state.failReason == Some(reason)
  }

  predicate Moves(out: Outcome, path: Path, repeated: bool, delta: int) {
    out.decision.reason == RequestReady(path, repeated) && out.decision.delta == delta && out.state.failReason == None
  }

  /** A movement of `delta` meets the cadence, the phase part it must not oppose, and the budgets, in this order. */
  predicate Answered(s: State, o: Observation, delta: int, part: int, path: Path, out: Outcome) {
    if !o.cadenceEligible || TooSoon(s, o) then Withheld(out, CadenceHold)
    else if BeforeLast(s, o) then Stopped(out, TimestampBackward)
    else if Opposed(delta, part) then Withheld(out, CoherenceHold)
    else if delta == 0 then Withheld(out, ZeroDeltaHold)
    else if ApplicationsSpent(s) then Withheld(out, ApplicationBudgetHold) && out.decision.projection.countLimited
    else if MovementSpent(s, delta) then Withheld(out, MovementBudgetHold) && out.decision.projection.movementLimited
    else if Inefficient(s, delta) then Stopped(out, LowEfficiencyPath)
    else Moves(out, path, Alternates(s.directions, delta), delta)
  }

  lemma AlternationMeans(s: State, delta: int)
    ensures RepeatedAlternation(s, delta) <==> Alternates(s.directions, delta)
  {
    var n := |s.directions|;
    if n >= 3 {
      var a, b, c, d := s.directions[n - 3], s.directions[n - 2], s.directions[n - 1], Direction(delta);
      var four, three, two := [a, b, c, d], [b, c, d], [c, d];
      assert LastThree(s.directions) + [d] == four;
      assert four[1..] == three && three[1..] == two && |two[1..]| == 1;
      assert Reversals(two[1..]) == 0;
      assert Reversals(two) == if c != d then 1 else 0;
      assert Reversals(three) == (if b != c then 1 else 0) + Reversals(two);
      assert Reversals(four) == (if a != b then 1 else 0) + Reversals(three);
    }
  }

  lemma RequestAnswers(s: State, o: Observation, p: Proposal)
    requires s.failReason == None
    ensures Answered(s, o, p.delta, if p.enforcePhase then p.phaseTerm else 0, p.path, RequestOrHold(s, o, p))
    ensures RequestOrHold(s, o, p).state.debt == s.debt && RequestOrHold(s, o, p).state.persistence == s.persistence
    ensures RequestOrHold(s, o, p).decision.delta != 0 ==> RequestOrHold(s, o, p).decision.maintenance == p.maintenance
  {
    hide RequestWhenReady, Opposed, ApplicationsSpent, MovementSpent, Inefficient, Alternates;
    ReadyAnswers(s, o, p);
  }

  /** The gates after cadence. */
  lemma ReadyAnswers(s: State, o: Observation, p: Proposal)
    requires s.failReason == None
    ensures var out, part := RequestWhenReady(s, o, p), if p.enforcePhase then p.phaseTerm else 0;
            && (if Opposed(p.delta, part) then Withheld(out, CoherenceHold)
                else if p.delta == 0 then Withheld(out, ZeroDeltaHold)
                else if ApplicationsSpent(s) then
                  Withheld(out, ApplicationBudgetHold) && out.decision.projection.countLimited
                else if MovementSpent(s, p.delta) then
                  Withheld(out, MovementBudgetHold) && out.decision.projection.movementLimited
                else if Inefficient(s, p.delta) then Stopped(out, LowEfficiencyPath)
                else Moves(out, p.path, Alternates(s.directions, p.delta), p.delta))
            && out.state.debt == s.debt && out.state.persistence == s.persistence
            && (out.decision.delta != 0 ==> out.decision.maintenance == p.maintenance)
  {
    hide RepeatedAlternation, Alternates, LowEfficiency, Inefficient;
    AlternationMeans(s, p.delta);
    OpposedProduct(p.delta, p.phaseTerm);
    InefficientIs(s, p.delta);
  }

  lemma InefficientIs(s: State, delta: int)
    ensures LowEfficiency(s, delta) <==> Inefficient(s, delta)
  {
  }

  lemma OpposedProduct(a: int, b: int)
    ensures a * b < 0 <==> Opposed(a, b)
  {
    if a > 0 && b != 0 {
      SignTimes(a, b);
    } else if a < 0 && b != 0 {
      SignTimes(-a, b);
      assert (-a) * b == -(a * b);
    } else if a == 0 {
      assert a * b == 0;
    } else {
      assert a * b == 0;
    }
  }

  lemma SignTimes(a: int, b: int)
    requires a > 0 && b != 0
    ensures a * b > 0 <==> b > 0
    ensures a * b != 0
  {
    if b > 0 {
      MulAtLeast(a, b);
    } else {
      MulAtLeast(a, -b);
      assert a * (-b) == -(a * b);
    }
  }

  lemma SameAnswer(s: State, t: State, o: Observation, delta: int, part: int, path: Path, out: Outcome)
    requires SameActuator(s, t)
    ensures Answered(s, o, delta, part, path, out) == Answered(t, o, delta, part, path, out)
  {
    hide Alternates;
  }

  // ---- before the measurement ------------------------------------------------------------------

  /** Short of agreement on code and epoch: the first thing wrong is the answer, and debt is kept. */
  lemma EarlyLaw(s: State, o: Observation)
    requires Holds(s) && Typed(o) && !InOrder(s, o)
    ensures var out := F.Decide(s, o);
            && out.state.debt == s.debt
            && (if s.decisionSequence == 0xFFFF_FFFF_FFFF_FFFF then Stopped(out, DecisionIdentityExhausted)
                else if s.failReason.Some? then Stopped(out, s.failReason.value)
                else if o.timestampS != o.timestampTicks / 1_000_000 then Stopped(out, TimestampMismatch)
                else if o.opening > 0xFFFF_FFFF || o.closing > 0xFFFF_FFFF
                        || (o.closing - o.opening) % 0x1_0000_0000 != 600 then Stopped(out, InvalidFrontier)
                else if s.pending.Some? then Withheld(out, RequestPendingHold)
                else if s.responsePending then Withheld(out, ResponsePendingHold)
                else if !o.metadataQualified
                  || (s.metadataHold && !s.metadataRequalified) then Withheld(out, MetadataHold)
                else Stopped(out, ContradictoryApplication))
    ensures var out := F.Decide(s, o);
            var loses := Withheld(out, MetadataHold) && !(s.metadataHold && !s.metadataRequalified);
            && (loses ==> Frozen(out.state) && out.state.persistence == NO_PERSISTENCE)
            && (!loses ==> out.state.persistence == s.persistence)
  {
    hide Holds, FrontierDecide, Settle, F.Decide, Withheld, Stopped, Frozen, Observed;
    DecideCases(s, o);
    FrontierCases(Observed(s, o), o);
    SequenceInRange(s);
    EarlyStops(s, o);
    ObservedFrame(s, o);
    ObservedRest(s, o);
    if s.decisionSequence < MAXIMUM_U64 && s.failReason == None && GoodClock(o) && ExactSpan(o) {
      EarlyFrontier(Observed(s, o), o);
    }
  }

  lemma ObservedRest(s: State, o: Observation)
    ensures var r := Observed(s, o);
            && r.debt == s.debt && r.pending == s.pending && r.responsePending == s.responsePending
            && r.appliedCode == s.appliedCode && r.dacEpoch == s.dacEpoch
  {
  }

  lemma EarlyStops(s: State, o: Observation)
    ensures Stopped(Fail(s, DecisionIdentityExhausted), DecisionIdentityExhausted)
    ensures s.failReason.Some? ==> Stopped(Hold(Observed(s, o), s.failReason.value), s.failReason.value)
    ensures Stopped(Fail(Observed(s, o), TimestampMismatch), TimestampMismatch)
    ensures Stopped(Fail(Observed(s, o), InvalidFrontier), InvalidFrontier)
    ensures forall out, reason :: Stopped(out, reason) ==> !Withheld(out, MetadataHold)
  {
  }

  lemma EarlyFrontier(s: State, o: Observation)
    requires s.failReason == None
    requires !(s.pending == None && !s.responsePending && o.metadataQualified
               && (s.metadataHold ==> s.metadataRequalified)
               && o.appliedCode == s.appliedCode && o.dacEpoch == s.dacEpoch)
    ensures var out := FrontierDecide(Bits32, s, o);
            && out.state.debt == s.debt
            && (if s.pending.Some? then Withheld(out, RequestPendingHold)
                else if s.responsePending then Withheld(out, ResponsePendingHold)
                else if !o.metadataQualified
                  || (s.metadataHold && !s.metadataRequalified) then Withheld(out, MetadataHold)
                else Stopped(out, ContradictoryApplication))
            && (Withheld(out, MetadataHold) && !(s.metadataHold && !s.metadataRequalified) ==>
                  Frozen(out.state) && out.state.persistence == NO_PERSISTENCE)
            && (!Withheld(out, MetadataHold) || (s.metadataHold && !s.metadataRequalified) ==>
                  out.state.persistence == s.persistence)
  {
    hide QualifiedDecide;
  }

  lemma SequenceInRange(s: State)
    requires Holds(s)
    ensures s.decisionSequence <= 0xFFFF_FFFF_FFFF_FFFF
  {
  }

  /** With code and epoch agreed: authority, settling, and the requalification frontier, in this order. */
  lemma QualifyLaw(s: State, o: Observation)
    requires Holds(s) && Current(s) && Typed(o) && InOrder(s, o) && !Measurable(s, o)
    ensures var out, q := F.Decide(s, o), s.requalification;
            && out.state.debt == CarriedDebt(s, o)
            && (if !o.authorityValid then Withheld(out, AuthorityHold) && out.state.persistence == NO_PERSISTENCE
                else if !o.settled then Withheld(out, SettlingHold) && out.state.persistence == NO_PERSISTENCE
                else
                  && out.state.persistence == CarriedWindow(s, o)
                  && (if q.epoch != Some(o.acceptanceEpoch) then Withheld(out, RequalificationEpochHold)
                      else if q.ordinal.Some? && IsBehind(o.opening, q.ordinal.value) then
                        Withheld(out, RequalificationOrdinalHold)
                      else Withheld(out, RequalificationOverlapHold)))
  {
    hide Holds, Deciding, Typed, IdentityChange, AdvanceRequalification, ControlDecide, Settle, F.Decide,
      FrontierDecide,
      QualifiedDecide, CarriedDebt, CarriedWindow, Current, Opens, Waits;
    SequenceBound(s);
    DecideCases(s, o);
    ObservedKeeps(s, o);
    ObservedFrame(s, o);
    HoldsDeciding(Observed(s, o));
    FrontierCases(Observed(s, o), o);
    ObservedCarries(s, o);
    IdentityCarries(Observed(s, o), o);
    IdentityChangeKeeps(Observed(s, o), o);
    QualifiedCases(Observed(s, o), o);
    SameGate(s, Qualified(s, o), o);
    AdvanceAnswers(Qualified(s, o), o);
    if o.authorityValid && o.settled {
      AdvanceRefuses(Qualified(s, o), o);
    }
  }

  lemma AdvanceRefuses(s: State, o: Observation)
    requires Holds(s) && s.failReason == None && (s.metadataHold ==> s.metadataRequalified) && o.opening <= MAXIMUM_U32
    requires !Opens(s, o) && !Waits(s, o)
    ensures var (r, hold) := AdvanceRequalification(s, o);
            var q := s.requalification;
            && r == s
            && hold == Some(if q.epoch != Some(o.acceptanceEpoch) then RequalificationEpochHold
                            else if q.ordinal.Some?
                              && IsBehind(o.opening, q.ordinal.value) then RequalificationOrdinalHold
                            else RequalificationOverlapHold)
  {
    hide IdentityOf, PathBounded, PolicyAccepted, PendingOk, DebtBounded, CountsOk, DirectionsOk, PersistenceBounded;
  }

  // ---- the direct paths --------------------------------------------------------------------------

  /** The ordinary demand of a centre, rounded, limited to one step and kept in range. */
  function Ordinary(s: State, centre: int): int {
    LimitedRatio(s, centre).delta
  }

  /** Phase valid, and either outside tight or moved by the phase. */
  predicate Direct(s: State, o: Observation) {
    o.phaseValid && (!o.tightInside || Ordinary(s, Centre(o)) != Ordinary(s, FrequencyCentre(o)))
  }

  lemma OrdinaryIs(s: State, t: State, o: Observation)
    requires s.policy == t.policy && s.appliedCode == t.appliedCode
    ensures OrdinaryDelta(s, o, true).0 == Ordinary(t, Centre(o))
    ensures OrdinaryDelta(s, o, false).0 == Ordinary(t, FrequencyCentre(o))
    ensures OrdinaryDelta(s, o, true).1.phaseMaterial
            <==> Ordinary(t, Centre(o)) != Ordinary(t, FrequencyCentre(o))
  {
    hide LimitedDelta, CombinedDemand, FrequencyDemand, RoundRatio;
    LimitedDeltaIsRatio(s, o, true);
    LimitedDeltaIsRatio(s, o, false);
  }

  lemma PhaseSign(o: Observation, delta: int)
    ensures Opposed(delta, PhaseCentre(o)) <==> Opposed(delta, -o.phaseCycles)
  {
  }

  /**
   A measured observation on a direct path is answered by the gates for the ordinary delta of
   its whole centre; the part it must not oppose has the sign of `-phaseCycles`.  Debt and
   window are cleared whatever the answer.
   */
  lemma DirectLaw(s: State, o: Observation)
    requires Holds(s) && Current(s) && Typed(o) && Measurable(s, o) && Opens(s, o) && Direct(s, o)
    ensures var out := F.Decide(s, o);
            && Answered(s, o, Ordinary(s, Centre(o)), -o.phaseCycles, DirectPath(o), out)
            && out.state.debt == Debt(0, 0) && out.state.persistence == NO_PERSISTENCE && !out.decision.maintenance
  {
    hide Holds, Current, Typed, Measurable, Opens, F.Decide, Gated, Settle, MaintenanceDecide, RequestOrHold, Answered,
      Centre, Ordinary, CarriedDebt, CarriedWindow, ReachesMeasurement, Deciding, SameActuator, OrdinaryDelta;
    MeasurableReaches(s, o);
    MeasurementDecision(s, o);
    var g := Gated(s, o).0;
    Actuator(s, g);
    DecidingHolds(g);
    OrdinaryIs(g, s, o);
    ControlCases(g, o, None);
    DirectAnswers(s, g, o);
  }

  lemma Actuator(s: State, t: State)
    requires SameActuator(s, t)
    ensures s.policy == t.policy && s.appliedCode == t.appliedCode
  {
  }

  lemma DirectAnswers(s: State, g: State, o: Observation)
    requires SameActuator(s, g) && g.failReason == None
    ensures var (delta, projection) := OrdinaryDelta(g, o, true);
            var out := OrdinaryRequest(g, o, delta, DirectPath(o), PhaseCentre(o), true, true, projection);
            && Answered(s, o, delta, -o.phaseCycles, DirectPath(o), out)
            && out.state.debt == Debt(0, 0) && out.state.persistence == NO_PERSISTENCE && !out.decision.maintenance
  {
    hide RequestOrHold, Answered, OrdinaryDelta, Centre, PhaseCentre;
    var (delta, projection) := OrdinaryDelta(g, o, true);
    var r := Reset(g, false);
    var p := Proposal(delta, DirectPath(o), r.policy.maximumStep, 0, 0, PhaseCentre(o), PhaseCentre(o), true, false,
                      projection);
    RequestAnswers(r, o, p);
    HeldIsNot(r, o, p);
    SameAnswer(s, r, o, delta, PhaseCentre(o), DirectPath(o), RequestOrHold(r, o, p));
    PhaseAnswer(s, o, delta, DirectPath(o), RequestOrHold(r, o, p));
  }

  lemma HeldIsNot(s: State, o: Observation, p: Proposal)
    ensures RequestOrHold(s, o, p).decision.maintenance ==> p.maintenance
  {
    hide RepeatedAlternation, LowEfficiency, CadenceStatus;
  }

  lemma PhaseAnswer(s: State, o: Observation, delta: int, path: Path, out: Outcome)
    ensures Answered(s, o, delta, PhaseCentre(o), path, out) <==> Answered(s, o, delta, -o.phaseCycles, path, out)
  {
    hide Opposed, TooSoon, BeforeLast, ApplicationsSpent, MovementSpent, Inefficient, Alternates, PhaseCentre;
    PhaseSign(o, delta);
  }

  /** With the phase degraded the ordinary delta of the frequency alone is asked for, and only its debt is kept. */
  lemma DegradedLaw(s: State, o: Observation)
    requires Holds(s) && Current(s) && Typed(o) && Measurable(s, o) && Opens(s, o) && !o.phaseValid
    ensures var out := F.Decide(s, o);
            && Answered(s, o, Ordinary(s, FrequencyCentre(o)), 0, Degraded, out)
            && out.state.debt == Debt(CarriedDebt(s, o).fll, 0) && out.state.persistence == NO_PERSISTENCE
            && !out.decision.maintenance
  {
    hide Holds, Current, Typed, Measurable, Opens, F.Decide, Gated, Settle, MaintenanceDecide, RequestOrHold, Answered,
      Ordinary, FrequencyCentre, CarriedDebt, CarriedWindow, ReachesMeasurement, Deciding, SameActuator, OrdinaryDelta;
    MeasurableReaches(s, o);
    MeasurementDecision(s, o);
    var g := Gated(s, o).0;
    Actuator(s, g);
    DecidingHolds(g);
    OrdinaryIs(DropPhaseDebt(g), s, o);
    ControlCases(g, o, None);
    DegradedAnswers(s, g, o);
  }

  lemma DegradedAnswers(s: State, g: State, o: Observation)
    requires SameActuator(s, g) && g.failReason == None
    ensures var q := DropPhaseDebt(g);
            var (delta, projection) := OrdinaryDelta(q, o, false);
            var out := OrdinaryRequest(q, o, delta, Degraded, 0, false, false, projection);
            && Answered(s, o, delta, 0, Degraded, out)
            && out.state.debt == Debt(g.debt.fll, 0) && out.state.persistence == NO_PERSISTENCE
            && !out.decision.maintenance
  {
    hide RequestOrHold, Answered, OrdinaryDelta;
    var q := DropPhaseDebt(g);
    var (delta, projection) := OrdinaryDelta(q, o, false);
    var r := Reset(q, true);
    var p := Proposal(delta, Degraded, r.policy.maximumStep, 0, 0, 0, 0, false, false, projection);
    RequestAnswers(r, o, p);
    HeldIsNot(r, o, p);
    SameAnswer(s, r, o, delta, 0, Degraded, RequestOrHold(r, o, p));
  }

  /** While the gate waits for its pair a direct path asks for nothing and clears what a request would clear. */
  lemma WaitingLaw(s: State, o: Observation)
    requires Holds(s) && Current(s) && Typed(o) && Measurable(s, o) && Waits(s, o) && (!o.phaseValid || Direct(s, o))
    ensures var out := F.Decide(s, o);
            && Withheld(out, RequalificationWindowHold)
            && out.state.debt == Debt(if o.phaseValid then 0 else CarriedDebt(s, o).fll, 0)
            && out.state.persistence == NO_PERSISTENCE
  {
    hide Holds, Current, Typed, Measurable, Waits, Opens, F.Decide, Gated, Settle, MaintenanceDecide, OrdinaryRequest,
      Ordinary, Centre, FrequencyCentre, CarriedDebt, CarriedWindow, ReachesMeasurement, Deciding, SameActuator,
      OrdinaryDelta;
    MeasurableReaches(s, o);
    WaitsIsShut(s, o);
    MeasurementDecision(s, o);
    var g := Gated(s, o).0;
    Actuator(s, g);
    DecidingHolds(g);
    OrdinaryIs(g, s, o);
    ControlCases(g, o, Some(RequalificationWindowHold));
  }

  lemma WaitsIsShut(s: State, o: Observation)
    requires Waits(s, o)
    ensures !Opens(s, o)
  {
  }

  // ---- maintenance -------------------------------------------------------------------------------

  predicate Maintains(s: State, o: Observation) {
    o.phaseValid && o.tightInside && Ordinary(s, Centre(o)) == Ordinary(s, FrequencyCentre(o))
  }

  /** The sign of a centre more than half an edge from zero: edges slow are positive, phase ahead is negative. */
  function StrictCentre(o: Observation): int {
    if Centre(o) > 18 then 1 else if Centre(o) < -18 then -1 else 0
  }

  /** The phase part of the demand, in picocodes. */
  function PhaseDemand(o: Observation): int {
    CentreToPicocodes(Centre(o)) - CentreToPicocodes(FrequencyCentre(o))
  }

  /** Debt survives only a window of the same sign. */
  function SignedDebt(s: State, o: Observation): Debt {
    var w := CarriedWindow(s, o);
    if StrictCentre(o) == 0 || (w.count != 0 && w.sign != StrictCentre(o)) then Debt(0, 0) else CarriedDebt(s, o)
  }

  /** This window is the second of its sign and identity. */
  predicate Second(s: State, o: Observation) {
    var w := CarriedWindow(s, o);
    w.count != 0 && w.sign == StrictCentre(o) && w.identity == Some(IdentityOf(o))
  }

  /** The whole codes of demand and debt, within the cap. */
  function Owed(s: State, o: Observation): int {
    var cap := Cap(Bits32, s, Centre(o), s.appliedCode);
    Clamp(RoundRatio(CentreToPicocodes(Centre(o)) + SignedDebt(s, o).Total(), PICO), -cap, cap)
  }

  /** A window that overlaps the last one changes nothing; one that leaves a gap starts over. */
  lemma BrokenLaw(s: State, o: Observation)
    requires Holds(s) && Current(s) && Typed(o) && Measurable(s, o) && Maintains(s, o)
    requires var last := CarriedWindow(s, o).lastClosing; last.Some? && last.value != o.opening
    ensures var out, w := F.Decide(s, o), CarriedWindow(s, o);
            && (if IsBehind(o.opening, w.lastClosing.value) then
                  && Withheld(out, SourceOverlapHold)
                  && out.state.debt == CarriedDebt(s, o) && out.state.persistence == w
                else if StrictCentre(o) == 0 then
                  && Withheld(out, ZeroContaining)
                  && out.state.debt == Debt(0, 0) && out.state.persistence == NO_PERSISTENCE
                else
                  && Withheld(out, SourceGapRestart) && out.state.debt == SignedDebt(s, o)
                  && out.state.persistence == Persistence(StrictCentre(o), 1, Some(IdentityOf(o)), Some(o.closing)))
  {
    hide Holds, Current, Typed, Measurable, Opens, F.Decide, Gated, Settle, MaintenanceDecide, OrdinaryRequest, Centre,
      Ordinary, FrequencyCentre, CarriedDebt, CarriedWindow, ReachesMeasurement, Deciding, SameActuator, OrdinaryDelta,
      MaintenanceWindow, GapRestart, OrdinalAtOrAfter, CentreSign, IdentityOf, StrictCentre, HoldProjected, Withheld,
      GapState, SignedDebt, IsBehind;
    MeasurableReaches(s, o);
    MeasurementDecision(s, o);
    var (g, hold) := Gated(s, o);
    Actuator(s, g);
    DecidingHolds(g);
    OrdinaryIs(g, s, o);
    ControlCases(g, o, hold);
    var projection := OrdinaryDelta(g, o, true).1;
    MaintenanceCases(g, o, hold, projection);
    GapOutcome(g, o, projection);
    GapAnswers(s, g, o);
    HeldAnswers(g, SourceOverlapHold, 0, projection);
    HeldAnswers(GapState(g, o), if StrictCentre(o) == 0 then ZeroContaining else SourceGapRestart, 0, projection);
    StrictIs(o);
    LastIsU32(g);
    BehindIs(o, g.persistence.lastClosing.value);
  }

  lemma HeldAnswers(s: State, reason: Reason, cap: int, projection: Projection)
    ensures HoldProjected(s, reason, cap, projection).state == s
    ensures s.failReason == None ==> Withheld(HoldProjected(s, reason, cap, projection), reason)
  {
  }

  lemma GapAnswers(s: State, g: State, o: Observation)
    requires g.debt == CarriedDebt(s, o) && g.persistence == CarriedWindow(s, o)
    ensures var t := GapState(g, o);
            && t.failReason == g.failReason
            && (if StrictCentre(o) == 0 then t.debt == Debt(0, 0) && t.persistence == NO_PERSISTENCE
                else
                  && t.debt == SignedDebt(s, o)
                  && t.persistence == Persistence(StrictCentre(o), 1, Some(IdentityOf(o)), Some(o.closing)))
  {
    hide CarriedDebt, CarriedWindow, IdentityOf, StrictCentre, CentreSign, GapState;
    StrictIs(o);
    GapStateIs(g, o);
  }

  lemma StrictIs(o: Observation)
    ensures StrictCentre(o) == CentreSign(o)
  {
  }

  lemma LastIsU32(s: State)
    requires Deciding(s)
    ensures s.persistence.lastClosing.Some? ==> InU32(s.persistence.lastClosing.value)
  {
  }

  lemma BehindIs(o: Observation, last: int)
    requires Admitted(o) && InU32(last)
    ensures OrdinalAtOrAfter(o.opening, last) <==> !IsBehind(o.opening, last)
  {
  }

  /**
   A window that continues the last one, or starts without one.  An interval that contains
   zero clears debt and window.  Otherwise the window is recorded, as the first or the second
   of its sign and identity, and only the second of an open gate is answered by the gates,
   for the owed codes, which must not oppose the phase part of the demand.
   */
  lemma MaintenanceLaw(s: State, o: Observation)
    requires Holds(s) && Current(s) && Typed(o) && Measurable(s, o) && Maintains(s, o)
    requires CarriedWindow(s, o).lastClosing in {None, Some(o.opening)}
    ensures var out := F.Decide(s, o);
            && out.state.debt == SignedDebt(s, o)
            && (if StrictCentre(o) == 0 then
                  && Withheld(out, ZeroContaining)
                  && out.state.persistence == NO_PERSISTENCE
                else
                  && out.state.persistence == Persistence(StrictCentre(o), if Second(s, o) then 2 else 1,
                                                          Some(IdentityOf(o)), Some(o.closing))
                  && (if Waits(s, o) then Withheld(out, RequalificationWindowHold)
                      else if !o.cadenceEligible || TooSoon(s, o) then
                        Withheld(out, CadenceHold)
                      else if BeforeLast(s, o) then Stopped(out, TimestampBackward)
                      else if !Second(s, o) then Withheld(out, FirstIntervalHold)
                      else
                        && Answered(s, o, Owed(s, o), PhaseDemand(o), Maintenance, out)
                        && out.decision.raw == CentreToPicocodes(Centre(o))
                        && out.decision.fll == CentreToPicocodes(FrequencyCentre(o))
                        && out.decision.pll == PhaseDemand(o)
                        && out.decision.maintenance == (out.decision.delta != 0)))
  {
    hide Holds, Current, Typed, Measurable, Opens, Waits, F.Decide, Gated, Settle, MaintenanceDecide, OrdinaryRequest,
      Centre, Ordinary, FrequencyCentre, CarriedDebt, CarriedWindow, ReachesMeasurement, Deciding, SameActuator,
      OrdinaryDelta, MaintenanceWindow, GapRestart, OrdinalAtOrAfter, CentreSign, IdentityOf, StrictCentre, Answered,
      SignedDebt, Second, Owed, PhaseDemand, TooSoon, BeforeLast;
    MeasurableReaches(s, o);
    MeasurementDecision(s, o);
    var (g, hold) := Gated(s, o);
    Actuator(s, g);
    DecidingHolds(g);
    OrdinaryIs(g, s, o);
    ControlCases(g, o, hold);
    MaintenanceCases(g, o, hold, OrdinaryDelta(g, o, true).1);
    OpeningInOrder(o);
    ShutIsWaiting(s, o);
    ReachedCode(s, o);
    WindowAnswers(s, g, o, hold, OrdinaryDelta(g, o, true).1);
  }

  lemma OpeningInOrder(o: Observation)
    requires Admitted(o)
    ensures OrdinalAtOrAfter(o.opening, o.opening)
  {
  }

  lemma ShutIsWaiting(s: State, o: Observation)
    requires Measurable(s, o)
    ensures Waits(s, o) <==> !Opens(s, o)
  {
  }

  lemma WindowAnswers(s: State, g: State, o: Observation, hold: Option<Reason>, projection: Projection)
    requires SameActuator(s, g) && g.debt == CarriedDebt(s, o) && g.persistence == CarriedWindow(s, o) && Deciding(g)
    requires o.appliedCode == s.appliedCode
    requires hold in {None, Some(RequalificationWindowHold)}
    ensures var out := MaintenanceWindow(Bits32, g, o, hold, projection);
            && out.state.debt == SignedDebt(s, o)
            && (if StrictCentre(o) == 0 then
                  && Withheld(out, ZeroContaining)
                  && out.state.persistence == NO_PERSISTENCE
                else
                  && out.state.persistence == Persistence(StrictCentre(o), if Second(s, o) then 2 else 1,
                                                          Some(IdentityOf(o)), Some(o.closing))
                  && (if hold.Some? then Withheld(out, RequalificationWindowHold)
                      else if !o.cadenceEligible || TooSoon(s, o) then
                        Withheld(out, CadenceHold)
                      else if BeforeLast(s, o) then Stopped(out, TimestampBackward)
                      else if !Second(s, o) then Withheld(out, FirstIntervalHold)
                      else
                        && Answered(s, o, Owed(s, o), PhaseDemand(o), Maintenance, out)
                        && out.decision.raw == CentreToPicocodes(Centre(o))
                        && out.decision.fll == CentreToPicocodes(FrequencyCentre(o))
                        && out.decision.pll == PhaseDemand(o)
                        && out.decision.maintenance == (out.decision.delta != 0)))
  {
    hide Holds, Deciding, CarriedDebt, CarriedWindow, Centre, FrequencyCentre, CentreSign, StrictCentre, SameActuator,
      Persisted, RequestOrHold, Answered, Owed, SignedDebt, Second, Cap, MaintenanceProposal, IdentityOf, CadenceStatus,
      TooSoon, BeforeLast, PhaseDemand, CentreToPicocodes, HoldProjected, Withheld, Stopped, Fail, Reset;
    StrictIs(o);
    PersistedIs(s, g, o);
    ZeroAnswers(g, projection);
    if StrictCentre(o) != 0 {
      var r := Persisted(g, o, CentreSign(o));
      var cap := Cap(Bits32, r, Centre(o), o.appliedCode);
      CadenceIs(s, r, o);
      OwedAnswers(s, r, o, projection);
      HeldAnswers(r, RequalificationWindowHold, cap, projection);
      HeldAnswers(r, CadenceHold, cap, projection.(cadenceLimited := true));
      HeldAnswers(r, FirstIntervalHold, cap, projection);
      FailAnswers(r);
    }
  }

  lemma ZeroAnswers(g: State, projection: Projection)
    requires g.failReason == None
    ensures var out := HoldProjected(Reset(g, false), ZeroContaining, 0, projection);
            Withheld(out, ZeroContaining) && out.state.debt == Debt(0, 0) && out.state.persistence == NO_PERSISTENCE
  {
  }

  lemma FailAnswers(s: State)
    ensures var out := Fail(s, TimestampBackward);
            Stopped(out, TimestampBackward) && out.state.debt == s.debt && out.state.persistence == s.persistence
  {
  }

  lemma CadenceIs(s: State, g: State, o: Observation)
    requires SameActuator(s, g)
    ensures CadenceStatus(g, o) == Held <==> !o.cadenceEligible || TooSoon(s, o)
    ensures CadenceStatus(g, o) == Backward <==> o.cadenceEligible && BeforeLast(s, o)
    ensures TooSoon(s, o) ==> !BeforeLast(s, o)
  {
  }

  lemma PersistedIs(s: State, g: State, o: Observation)
    requires SameActuator(s, g) && g.debt == CarriedDebt(s, o) && g.persistence == CarriedWindow(s, o) && Deciding(g)
    ensures g.failReason == None
    ensures StrictCentre(o) != 0 ==>
              var r := Persisted(g, o, StrictCentre(o));
              && SameActuator(s, r) && r.failReason == None && r.debt == SignedDebt(s, o)
              && r.persistence == Persistence(StrictCentre(o), if Second(s, o) then 2 else 1, Some(IdentityOf(o)),
                                              Some(o.closing))
    ensures StrictCentre(o) == 0 ==> SignedDebt(s, o) == Debt(0, 0)
  {
    hide Deciding, CarriedDebt, CarriedWindow, StrictCentre, IdentityOf;
    DecidingHolds(g);
    CountBounds(g);
  }

  lemma OwedAnswers(s: State, r: State, o: Observation, projection: Projection)
    requires SameActuator(s, r) && r.debt == SignedDebt(s, o) && o.appliedCode == s.appliedCode && r.failReason == None
    ensures var p := MaintenanceProposal(r, o, Cap(Bits32, r, Centre(o), o.appliedCode), projection);
            var out := RequestOrHold(r, o, p);
            && out.state.debt == r.debt && out.state.persistence == r.persistence
            && Answered(s, o, Owed(s, o), PhaseDemand(o), Maintenance, out)
            && (CadenceStatus(r, o) == Ready ==>
                  && out.decision.raw == CentreToPicocodes(Centre(o))
                  && out.decision.fll == CentreToPicocodes(FrequencyCentre(o))
                  && out.decision.pll == PhaseDemand(o)
                  && out.decision.maintenance == (out.decision.delta != 0))
  {
    hide RequestOrHold, Answered, Cap, CentreToPicocodes, Centre, FrequencyCentre, RoundRatio, SignedDebt,
      CadenceStatus;
    SameCap(s, r, Centre(o), o.appliedCode);
    var p := MaintenanceProposal(r, o, Cap(Bits32, r, Centre(o), o.appliedCode), projection);
    RequestAnswers(r, o, p);
    if CadenceStatus(r, o) == Ready {
      ShownDemand(r, o, p);
    }
    SameAnswer(s, r, o, p.delta, p.phaseTerm, Maintenance, RequestOrHold(r, o, p));
  }

  lemma SameCap(s: State, t: State, centre: int, code: int)
    requires SameActuator(s, t)
    ensures Cap(Bits32, s, centre, code) == Cap(Bits32, t, centre, code)
  {
    hide Headroom;
  }

  lemma ShownDemand(s: State, o: Observation, p: Proposal)
    requires CadenceStatus(s, o) == Ready
    ensures var d := RequestOrHold(s, o, p).decision;
            d.raw == p.raw && d.fll == p.fll && d.pll == p.pll && (p.maintenance ==> d.maintenance == (d.delta != 0))
  {
    hide RepeatedAlternation, LowEfficiency, CadenceStatus;
  }

  // ---- coherence -----------------------------------------------------------------------------------

  /** The phase part a movement must not oppose: the phase itself on the direct paths, its demand in maintenance. */
  function PhasePart(s: State, o: Observation): int {
    if Direct(s, o) then -o.phaseCycles else PhaseDemand(o)
  }

  /** The movement the measurement asks for. */
  function Asked(s: State, o: Observation): int {
    if Direct(s, o) then Ordinary(s, Centre(o)) else Owed(s, o)
  }

  /** Cadence is ready, and in maintenance the window is the second of a pair that continues. */
  predicate AtGate(s: State, o: Observation) {
    && Measurable(s, o) && Opens(s, o) && o.phaseValid
    && o.cadenceEligible && !TooSoon(s, o) && !BeforeLast(s, o)
    && (Direct(s, o)
       || (CarriedWindow(s, o).lastClosing in {None, Some(o.opening)} && StrictCentre(o) != 0 && Second(s, o)))
  }

  /** At the coherence gate a movement is withheld for its phase if and only if it opposes the phase part. */
  lemma CoherenceExactly(s: State, o: Observation)
    requires Holds(s) && Current(s) && Typed(o) && AtGate(s, o)
    ensures F.Decide(s, o).decision.reason == CoherenceHold <==> Opposed(Asked(s, o), PhasePart(s, o))
  {
    hide Holds, Current, Typed, Measurable, Opens, Waits, F.Decide, Ordinary, Owed, PhaseDemand, CarriedWindow, Second,
      StrictCentre, TooSoon, BeforeLast, Inefficient, Alternates, ApplicationsSpent, MovementSpent, SignedDebt, Opposed;
    if Direct(s, o) {
      DirectLaw(s, o);
    } else {
      ShutIsWaiting(s, o);
      MaintenanceLaw(s, o);
    }
  }

  /** No movement with a valid phase ever opposes its phase part. */
  lemma MovementIsCoherent(s: State, o: Observation)
    requires Holds(s) && Current(s) && Typed(o) && o.phaseValid && F.Decide(s, o).decision.delta != 0
    ensures var d := F.Decide(s, o).decision;
            !Opposed(d.delta, if d.maintenance then PhaseDemand(o) else -o.phaseCycles)
  {
    hide Holds, Current, Typed, Measurable, Opens, Waits, F.Decide, Ordinary, Owed, PhaseDemand, CarriedWindow, Second,
      StrictCentre, TooSoon, BeforeLast, Inefficient, Alternates, ApplicationsSpent, MovementSpent, SignedDebt, Opposed,
      Centre, FrequencyCentre, IsBehind, IdentityOf;
    DecisionEffect(s, o);
    MeasurableIs(s, o);
    ShutIsWaiting(s, o);
    if Direct(s, o) {
      if Opens(s, o) {
        DirectLaw(s, o);
      } else {
        WaitingLaw(s, o);
      }
    } else if CarriedWindow(s, o).lastClosing in {None, Some(o.opening)} {
      MaintenanceLaw(s, o);
    } else {
      BrokenLaw(s, o);
    }
  }

  /** Reaching the measurement is told by the fields. */
  lemma MeasurableIs(s: State, o: Observation)
    requires Holds(s) && Current(s) && Typed(o) && ReachesMeasurement(s, o)
    ensures Measurable(s, o)
  {
    hide Holds, IdentityChange, AdvanceRequalification, Opens, Waits, CarriedDebt, CarriedWindow, Current;
    ObservedFrame(s, o);
    ObservedCarries(s, o);
    SequenceBound(s);
    ObservedKeeps(s, o);
    HoldsDeciding(Observed(s, o));
    IdentityChangeKeeps(Observed(s, o), o);
    IdentityCarries(Observed(s, o), o);
    SameGate(s, Qualified(s, o), o);
    AdvanceAnswers(Qualified(s, o), o);
  }

  // ---- contradiction -----------------------------------------------------------------------------

  /**
   A live engine answers a contradiction exactly when an observation that gets so far reports
   another code or epoch.
   */
  lemma ContradictionExactly(s: State, o: Observation)
    requires Holds(s) && Current(s) && Typed(o) && s.failReason == None
    ensures F.Decide(s, o).decision.reason == ContradictoryApplication
            <==> !Reports(o, s) && InOrder(s, o.(appliedCode := s.appliedCode, dacEpoch := s.dacEpoch))
    ensures F.Decide(s, o).state.failReason == Some(ContradictoryApplication)
            <==> F.Decide(s, o).decision.reason == ContradictoryApplication
  {
    hide Holds, Current, Typed, Opens, Waits, F.Decide, Ordinary, Owed, PhaseDemand, CarriedWindow, CarriedDebt, Second,
      StrictCentre, TooSoon, BeforeLast, Inefficient, Alternates, ApplicationsSpent, MovementSpent, SignedDebt, Opposed,
      Centre, FrequencyCentre, IsBehind, IdentityOf, Frozen;
    SequenceInRange(s);
    if InOrder(s, o) {
      InOrderNeverContradicts(s, o);
    } else {
      EarlyLaw(s, o);
    }
  }

  lemma InOrderNeverContradicts(s: State, o: Observation)
    requires Holds(s) && Current(s) && Typed(o) && InOrder(s, o)
    ensures F.Decide(s, o).decision.reason != ContradictoryApplication
    ensures F.Decide(s, o).state.failReason != Some(ContradictoryApplication)
  {
    hide Holds, Current, Typed, Opens, Waits, F.Decide, Ordinary, Owed, PhaseDemand, CarriedWindow, CarriedDebt, Second,
      StrictCentre, TooSoon, BeforeLast, Inefficient, Alternates, ApplicationsSpent, MovementSpent, SignedDebt, Opposed,
      Centre, FrequencyCentre, IsBehind, IdentityOf, InOrder;
    if !Measurable(s, o) {
      QualifyLaw(s, o);
    } else {
      ShutIsWaiting(s, o);
      if !o.phaseValid || Direct(s, o) {
        if Waits(s, o) {
          WaitingLaw(s, o);
        } else if o.phaseValid {
          DirectLaw(s, o);
        } else {
          DegradedLaw(s, o);
        }
      } else if CarriedWindow(s, o).lastClosing in {None, Some(o.opening)} {
        MaintenanceLaw(s, o);
      } else {
        BrokenLaw(s, o);
      }
    }
  }

  // ---- the gate ------------------------------------------------------------------------------------

  /** A measured window opens the gate, or is recorded as the first of the pair the gate waits for. */
  lemma GateExactly(s: State, o: Observation)
    requires Holds(s) && Current(s) && Typed(o) && Measurable(s, o)
    ensures var t := F.Decide(s, o).state;
            && (t.metadataHold <==> Waits(s, o))
            && (s.metadataHold && Opens(s, o) ==> t.requalification == Requalification(None, None, 2, None, None))
            && (Waits(s, o) ==>
                  && t.metadataRequalified && t.requalification.windowCount == 1
                  && t.requalification.epoch == s.requalification.epoch
                  && t.requalification.ordinal == s.requalification.ordinal
                  && t.requalification.lastClosing == Some(o.closing)
                  && t.requalification.identity == Some(IdentityOf(o)))
  {
    hide Holds, Current, Typed, Measurable, Opens, Waits, F.Decide, Settle, ControlDecide, CarriedDebt, CarriedWindow,
      ReachesMeasurement, Deciding, SameActuator, IdentityChange, AdvanceRequalification, IdentityOf;
    MeasurableReaches(s, o);
    MeasurementDecision(s, o);
    HeldIsRequalified(s, o);
    ShutIsWaiting(s, o);
    ControlGentle(Gated(s, o).0, o, Gated(s, o).1);
    IdentitySame(Observed(s, o), o);
    ObservedFrame(s, o);
    ReachedQualified(s, o);
    AdvanceRecords(Qualified(s, o), o);
    GatedSame(s, o);
  }

  lemma HeldIsRequalified(s: State, o: Observation)
    requires Measurable(s, o)
    ensures s.metadataHold ==> s.metadataRequalified
  {
  }

  lemma AdvanceRecords(s: State, o: Observation)
    requires Deciding(s)
    ensures var (r, hold) := AdvanceRequalification(s, o);
            hold == None && s.metadataHold && s.metadataRequalified ==>
              r.requalification == Requalification(None, None, 2, None, None)
    ensures var (r, hold) := AdvanceRequalification(s, o);
            hold == Some(RequalificationWindowHold) ==>
              && r.metadataHold && r.metadataRequalified && r.requalification.windowCount == 1
              && r.requalification.epoch == s.requalification.epoch
              && r.requalification.ordinal == s.requalification.ordinal
              && r.requalification.lastClosing == Some(o.closing)
              && r.requalification.identity == Some(IdentityOf(o))
  {
    hide IdentityOf, PathBounded, PolicyAccepted, PendingOk, DebtBounded, CountsOk, DirectionsOk, PersistenceBounded;
  }

  /** A coherent movement of a direct path that no cadence and no budget holds back is asked for exactly. */
  lemma CoherentDirectMoves(s: State, o: Observation)
    requires Holds(s) && Current(s) && Typed(o) && AtGate(s, o) && Direct(s, o)
    requires var d := Ordinary(s, Centre(o));
             && d != 0 && !Opposed(d, -o.phaseCycles)
             && !ApplicationsSpent(s) && !MovementSpent(s, d) && !Inefficient(s, d)
    ensures F.Decide(s, o).decision.delta == Ordinary(s, Centre(o))
  {
    hide Holds, Current, Typed, Measurable, Opens, F.Decide, Ordinary, Centre, Opposed;
    DirectLaw(s, o);
  }

  // ---- the record ----------------------------------------------------------------------------------

  /** A decision records the state it leaves: its sequence and time, code, window count and debt. */
  predicate Recorded(out: Outcome) {
    && out.decision.sequence == out.state.decisionSequence && out.decision.ticks == out.state.currentTicks
    && out.decision.code == out.state.appliedCode + out.decision.delta
    && out.decision.persistenceCount == out.state.persistence.count
    && out.decision.committedDebt == out.state.debt.fll + out.state.debt.pll
  }

  lemma RequestRecords(s: State, o: Observation, p: Proposal)
    ensures Recorded(RequestOrHold(s, o, p))
  {
    hide RequestWhenReady, CadenceStatus;
    ReadyRecords(s, o, p);
  }

  lemma ReadyRecords(s: State, o: Observation, p: Proposal)
    ensures Recorded(RequestWhenReady(s, o, p))
  {
    hide LowEfficiency, HoldProposal, Recorded, Request, FailStatic;
    HoldRecorded(s, p, CoherenceHold, p.projection);
    HoldRecorded(s, p, ZeroDeltaHold, p.projection);
    HoldRecorded(s, p, ApplicationBudgetHold, p.projection.(countLimited := true));
    HoldRecorded(s, p, MovementBudgetHold, p.projection.(movementLimited := true));
    HoldRecorded(FailStatic(s, LowEfficiencyPath), p, LowEfficiencyPath, p.projection);
    AskedRecorded(s, o, p);
  }

  lemma HoldRecorded(s: State, p: Proposal, reason: Reason, projection: Projection)
    ensures Recorded(Outcome(s, HoldProposal(s, p, reason, projection)))
  {
  }

  lemma AskedRecorded(s: State, o: Observation, p: Proposal)
    ensures Recorded(Request(s, o, p))
  {
    hide RepeatedAlternation;
  }

  lemma HoldRecords(s: State, reason: Reason, cap: int, projection: Projection)
    ensures Recorded(HoldProjected(s, reason, cap, projection)) && Recorded(Hold(s, reason))
            && Recorded(Fail(s, reason))
  {
  }

  lemma ControlRecords(s: State, o: Observation, hold: Option<Reason>)
    requires Deciding(s) && Admitted(o) && WindowOnlyHold(hold)
    ensures Recorded(Settle(ControlDecide(Bits32, s, o, hold)))
  {
    hide Recorded, RequestOrHold, Reset, DropPhaseDebt, OrdinaryDelta, MaintenanceWindow, GapRestart, Deciding, Holds,
      HoldProjected, OrdinalAtOrAfter, Settle, GapState, CentreSign, MaintenanceDecide;
    ControlCases(s, o, hold);
    DecidingHolds(s);
    var (delta, projection) := OrdinaryDelta(s, o, true);
    var q := DropPhaseDebt(s);
    var degraded := OrdinaryDelta(q, o, false);
    if hold.Some? {
      HoldRecords(q, hold.value, 0, degraded.1);
      HoldRecords(Reset(s, false), hold.value, 0, projection);
    }
    RequestRecords(Reset(q, true), o,
      Proposal(degraded.0, Degraded, Reset(q, true).policy.maximumStep, 0, 0, 0, 0, false,
                                               false, degraded.1));
    RequestRecords(Reset(s, false), o, Proposal(delta, DirectPath(o), Reset(s, false).policy.maximumStep, 0, 0,
                                                PhaseCentre(o), PhaseCentre(o), true, false, projection));
    MaintenanceCases(s, o, hold, projection);
    GapOutcome(s, o, projection);
    HoldRecords(s, SourceOverlapHold, 0, projection);
    HoldRecords(GapState(s, o), if CentreSign(o) == 0 then ZeroContaining else SourceGapRestart, 0, projection);
    WindowRecords(s, o, hold, projection);
  }

  lemma WindowRecords(s: State, o: Observation, hold: Option<Reason>, projection: Projection)
    ensures Recorded(MaintenanceWindow(Bits32, s, o, hold, projection))
  {
    hide Recorded, RequestOrHold, Reset, HoldProjected, Fail, Persisted, Cap, MaintenanceProposal, CadenceStatus,
      CentreSign;
    HoldRecords(Reset(s, false), ZeroContaining, 0, projection);
    var r := Persisted(s, o, CentreSign(o));
    var cap := Cap(Bits32, r, Centre(o), o.appliedCode);
    if hold.Some? {
      HoldRecords(r, hold.value, cap, projection);
    }
    HoldRecords(r, TimestampBackward, cap, projection);
    HoldRecords(r, CadenceHold, cap, projection.(cadenceLimited := true));
    HoldRecords(r, FirstIntervalHold, cap, projection);
    RequestRecords(r, o, MaintenanceProposal(r, o, cap, projection));
  }

  /** Every decision is recorded with the state it leaves, and all but an exhausted one count it and take its time. */
  lemma DecisionIsRecorded(s: State, o: Observation)
    requires Holds(s) && Typed(o)
    ensures Recorded(F.Decide(s, o))
    ensures s.decisionSequence < 0xFFFF_FFFF_FFFF_FFFF ==>
              F.Decide(s, o).decision.sequence == s.decisionSequence + 1
                && F.Decide(s, o).decision.ticks == o.timestampTicks
  {
    hide Holds, Typed, F.Decide, FrontierDecide, Recorded, Settle, ControlDecide, Fail, Hold, ReachesMeasurement, Gated;
    SequenceInRange(s);
    DecidedClock(s, o);
    if ReachesMeasurement(s, o) {
      MeasurementDecision(s, o);
      GatedSame(s, o);
      ReachedPending(s, o);
      ControlRecords(Gated(s, o).0, o, Gated(s, o).1);
    } else {
      QuietRecords(s, o);
    }
    RecordedClock(F.Decide(s, o));
  }

  lemma RecordedClock(out: Outcome)
    requires Recorded(out)
    ensures out.decision.sequence == out.state.decisionSequence && out.decision.ticks == out.state.currentTicks
  {
  }

  lemma QuietRecords(s: State, o: Observation)
    requires Holds(s) && Typed(o) && !ReachesMeasurement(s, o)
    ensures Recorded(F.Decide(s, o))
  {
    hide Holds, Deciding, ControlDecide, IdentityChange, AdvanceRequalification, Settle, QualifiedDecide, F.Decide,
      ExactSpan, Typed, Reset, EnterHold;
    DecideCases(s, o);
    FrontierCases(Observed(s, o), o);
    if s.decisionSequence != MAXIMUM_U64 && s.failReason == None && GoodClock(o) && ExactSpan(o)
       && s.pending == None && !s.responsePending && o.metadataQualified && (s.metadataHold ==> s.metadataRequalified)
       && o.appliedCode == s.appliedCode && o.dacEpoch == s.dacEpoch {
      SequenceBound(s);
      ObservedKeeps(s, o);
      ObservedFrame(s, o);
      HoldsDeciding(Observed(s, o));
      QualifiedCases(Observed(s, o), o);
      QuietHolds(s, o);
    }
  }

  lemma QuietHolds(s: State, o: Observation)
    ensures forall t: State, reason :: Recorded(Hold(t, reason))
  {
  }

  /** The sequence and the clock advance with every decision that is not exhausted, and nothing else moves them. */
  lemma DecidedClock(s: State, o: Observation)
    requires Holds(s) && Typed(o)
    ensures var t := F.Decide(s, o).state;
            if s.decisionSequence == MAXIMUM_U64 then t.decisionSequence == s.decisionSequence
            else t.decisionSequence == s.decisionSequence + 1 && t.currentTicks == o.timestampTicks
  {
    hide Holds, Typed, F.Decide, FrontierDecide, ReachesMeasurement, Gated, Settle, ControlDecide, Deciding;
    DecideCases(s, o);
    if s.decisionSequence != MAXIMUM_U64 {
      FrontierClock(Observed(s, o), o);
      SettleClock(FrontierDecide(Bits32, Observed(s, o), o));
    }
  }

  predicate SameClock(a: State, b: State) {
    a.decisionSequence == b.decisionSequence && a.currentTicks == b.currentTicks
  }

  lemma SettleClock(out: Outcome)
    ensures SameClock(Settle(out).state, out.state)
  {
  }

  lemma FrontierClock(s: State, o: Observation)
    ensures SameClock(FrontierDecide(Bits32, s, o).state, s)
  {
    hide IdentityChange, AdvanceRequalification, ControlDecide, Reset;
    GateClock(s, o);
    var r := IdentityChange(s, o);
    GateClock(r, o);
    var (r', hold) := AdvanceRequalification(r, o);
    ControlClock(r', o, hold);
    GateClock(s.(metadataHold := true, metadataRequalified := false, requalification := NO_REQUALIFICATION), o);
  }

  lemma GateClock(s: State, o: Observation)
    ensures SameClock(IdentityChange(s, o), s) && SameClock(AdvanceRequalification(s, o).0, s)
    ensures SameClock(Reset(s, true), s) && SameClock(Reset(s, false), s) && SameClock(DropPhaseDebt(s), s)
  {
    hide IdentityOf, AtOrAfter;
  }

  lemma ControlClock(s: State, o: Observation, hold: Option<Reason>)
    ensures SameClock(ControlDecide(Bits32, s, o, hold).state, s)
  {
    hide RequestOrHold, MaintenanceDecide, OrdinaryDelta, Reset, DropPhaseDebt;
    GateClock(s, o);
    var q := DropPhaseDebt(s);
    GateClock(q, o);
    var d := OrdinaryDelta(q, o, false);
    RequestClock(Reset(q, true), o,
      Proposal(d.0, Degraded, Reset(q, true).policy.maximumStep, 0, 0, 0, 0, false, false, d.1));
    var e := OrdinaryDelta(s, o, true);
    var r := Reset(s, false);
    RequestClock(r, o,
      Proposal(e.0, DirectPath(o), r.policy.maximumStep, 0, 0, PhaseCentre(o), PhaseCentre(o), true, false,
                                e.1));
    MaintenanceClock(s, o, hold, e.1);
  }

  lemma RequestClock(s: State, o: Observation, p: Proposal)
    ensures SameClock(RequestOrHold(s, o, p).state, s)
  {
    hide RepeatedAlternation, LowEfficiency, CadenceStatus;
  }

  lemma MaintenanceClock(s: State, o: Observation, hold: Option<Reason>, projection: Projection)
    ensures SameClock(MaintenanceDecide(Bits32, s, o, hold, projection).state, s)
  {
    hide RequestOrHold, Reset, Persisted, GapWindow, Cap, MaintenanceProposal, CadenceStatus, CentreSign, AtOrAfter;
    GateClock(s, o);
    WindowClock(s, o);
    var r := Persisted(s, o, CentreSign(o));
    RequestClock(r, o, MaintenanceProposal(r, o, Cap(Bits32, r, Centre(o), o.appliedCode), projection));
  }

  lemma WindowClock(s: State, o: Observation)
    ensures SameClock(Persisted(s, o, CentreSign(o)), s) && SameClock(GapWindow(s, o), s)
  {
    hide CentreSign, IdentityOf;
  }

  // ---- the projection ------------------------------------------------------------------------------

  /** The ordinary demand with its limits, and which of the last three gates withheld the movement. */
  function Projected(s: State, o: Observation, reason: Reason): Projection {
    var limited := LimitedRatio(s, if o.phaseValid then Centre(o) else FrequencyCentre(o));
    Projection(Ordinary(s, FrequencyCentre(o)), o.phaseValid && limited.delta != Ordinary(s, FrequencyCentre(o)),
               limited.stepLimited, limited.rangeClamped,
               reason == CadenceHold, reason == ApplicationBudgetHold, reason == MovementBudgetHold)
  }

  /** A projection no gate has marked. */
  predicate Unmarked(p: Projection) {
    !p.cadenceLimited && !p.countLimited && !p.movementLimited
  }

  function Marked(p: Projection, reason: Reason): Projection {
    p.(cadenceLimited := reason == CadenceHold, countLimited := reason == ApplicationBudgetHold,
       movementLimited := reason == MovementBudgetHold)
  }

  /** A decision made with a projection shows it, marked by its reason; only a backward clock shows none. */
  predicate Shows(out: Outcome, p: Projection) {
    out.decision.projection == if out.decision.reason == TimestampBackward then NO_PROJECTION
                               else Marked(p, out.decision.reason)
  }

  lemma RequestShows(s: State, o: Observation, p: Proposal)
    requires Unmarked(p.projection)
    ensures Shows(RequestOrHold(s, o, p), p.projection)
  {
    hide RequestWhenReady, CadenceStatus;
    ReadyShows(s, o, p);
  }

  lemma ReadyShows(s: State, o: Observation, p: Proposal)
    requires Unmarked(p.projection)
    ensures Shows(RequestWhenReady(s, o, p), p.projection)
  {
    hide LowEfficiency, HoldProposal, Shows, Request, FailStatic, Marked, Unmarked;
    var q := p.projection;
    MarkedIs(q);
    HoldShown(s, p, CoherenceHold, q, q);
    HoldShown(s, p, ZeroDeltaHold, q, q);
    HoldShown(s, p, ApplicationBudgetHold, q.(countLimited := true), q);
    HoldShown(s, p, MovementBudgetHold, q.(movementLimited := true), q);
    HoldShown(FailStatic(s, LowEfficiencyPath), p, LowEfficiencyPath, q, q);
    AskedShown(s, o, p);
  }

  lemma MarkedIs(p: Projection)
    requires Unmarked(p)
    ensures Marked(p, CoherenceHold) == Marked(p, ZeroDeltaHold) == Marked(p, LowEfficiencyPath) == p
    ensures Marked(p, ApplicationBudgetHold) == p.(countLimited := true)
    ensures Marked(p, MovementBudgetHold) == p.(movementLimited := true)
  {
  }

  lemma HoldShown(s: State, p: Proposal, reason: Reason, shown: Projection, projection: Projection)
    requires shown == Marked(projection, reason) && reason != TimestampBackward
    ensures Shows(Outcome(s, HoldProposal(s, p, reason, shown)), projection)
  {
  }

  lemma AskedShown(s: State, o: Observation, p: Proposal)
    requires Unmarked(p.projection)
    ensures Shows(Request(s, o, p), p.projection)
  {
    hide RepeatedAlternation;
  }

  lemma HoldShows(s: State, reason: Reason, cap: int, p: Projection)
    requires Unmarked(p)
    ensures !(reason in {TimestampBackward, CadenceHold, ApplicationBudgetHold, MovementBudgetHold}) ==>
              Shows(HoldProjected(s, reason, cap, p), p)
    ensures Shows(HoldProjected(s, CadenceHold, cap, p.(cadenceLimited := true)), p)
    ensures Shows(Fail(s, TimestampBackward), p)
  {
  }

  lemma WindowShows(s: State, o: Observation, hold: Option<Reason>, p: Projection)
    requires Unmarked(p) && WindowOnlyHold(hold)
    ensures Shows(MaintenanceWindow(Bits32, s, o, hold, p), p)
  {
    hide Shows, RequestOrHold, Reset, HoldProjected, Fail, Persisted, Cap, CadenceStatus, CentreSign;
    HoldShows(Reset(s, false), ZeroContaining, 0, p);
    var r := Persisted(s, o, CentreSign(o));
    var cap := Cap(Bits32, r, Centre(o), o.appliedCode);
    HoldShows(r, RequalificationWindowHold, cap, p);
    HoldShows(r, FirstIntervalHold, cap, p);
    ProposalShows(r, o, cap, p);
    RequestShows(r, o, MaintenanceProposal(r, o, cap, p));
  }

  lemma ProposalShows(s: State, o: Observation, cap: int, p: Projection)
    ensures MaintenanceProposal(s, o, cap, p).projection == p
  {
  }

  lemma ControlShows(s: State, o: Observation, hold: Option<Reason>)
    requires Deciding(s) && Admitted(o) && WindowOnlyHold(hold)
    ensures Shows(Settle(ControlDecide(Bits32, s, o, hold)),
                  OrdinaryDelta(if o.phaseValid then s else DropPhaseDebt(s), o, o.phaseValid).1)
  {
    hide Shows, RequestOrHold, Reset, DropPhaseDebt, LimitedDelta, CombinedDemand, FrequencyDemand, MaintenanceWindow,
      GapRestart, Deciding, Holds, HoldProjected, OrdinalAtOrAfter, Settle, GapState, CentreSign, MaintenanceDecide;
    ControlCases(s, o, hold);
    DecidingHolds(s);
    var (delta, p) := OrdinaryDelta(s, o, true);
    var q := DropPhaseDebt(s);
    var (plain, p') := OrdinaryDelta(q, o, false);
    HoldShows(q, RequalificationWindowHold, 0, p');
    HoldShows(Reset(s, false), RequalificationWindowHold, 0, p);
    var r, r' := Reset(q, true), Reset(s, false);
    RequestShows(r, o, Proposal(plain, Degraded, r.policy.maximumStep, 0, 0, 0, 0, false, false, p'));
    RequestShows(r', o,
      Proposal(delta, DirectPath(o), r'.policy.maximumStep, 0, 0, PhaseCentre(o), PhaseCentre(o), true,
                                 false, p));
    MaintenanceCases(s, o, hold, p);
    GapOutcome(s, o, p);
    HoldShows(s, SourceOverlapHold, 0, p);
    HoldShows(GapState(s, o), ZeroContaining, 0, p);
    HoldShows(GapState(s, o), SourceGapRestart, 0, p);
    WindowShows(s, o, hold, p);
  }

  lemma ProjectionIs(s: State, g: State, o: Observation, reason: Reason)
    requires s.policy == g.policy && s.appliedCode == g.appliedCode
    ensures Marked(OrdinaryDelta(g, o, o.phaseValid).1, reason) == Projected(s, o, reason)
  {
    hide LimitedDelta, CombinedDemand, FrequencyDemand, RoundRatio, Centre, FrequencyCentre;
    LimitedDeltaIsRatio(g, o, o.phaseValid);
    CentreSums(o);
  }

  lemma CentreSums(o: Observation)
    ensures Centre(o) == FrequencyCentre(o) + PhaseCentre(o)
  {
  }

  /** Every measured decision shows the ordinary demand it was made under, marked by the gate that withheld it. */
  lemma ProjectionLaw(s: State, o: Observation)
    requires Holds(s) && Current(s) && Typed(o) && Measurable(s, o)
    ensures var d := F.Decide(s, o).decision;
            d.projection == if d.reason == TimestampBackward then NO_PROJECTION else Projected(s, o, d.reason)
  {
    hide Holds, Current, Typed, Measurable, F.Decide, Gated, Settle, ControlDecide, OrdinaryDelta, Marked, Projected,
      ReachesMeasurement, Deciding, SameActuator, CarriedDebt, CarriedWindow, Opens;
    MeasurableReaches(s, o);
    MeasurementDecision(s, o);
    var (g, hold) := Gated(s, o);
    Actuator(s, g);
    Dropped(g);
    ControlShows(g, o, hold);
    ProjectionIs(s, if o.phaseValid then g else DropPhaseDebt(g), o, F.Decide(s, o).decision.reason);
  }

  lemma Dropped(s: State)
    ensures DropPhaseDebt(s).policy == s.policy && DropPhaseDebt(s).appliedCode == s.appliedCode
  {
  }
}
