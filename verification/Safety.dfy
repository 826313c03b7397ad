/** What single transitions of a reachable engine guarantee. */
module Safety {
  import opened Words
  import opened Rounding
  import opened Controller
  import opened Firmware
  import opened Invariant
  import opened Cases
  import F = Firmware

  // ---- effect of a decision --------------------------------------------------------------

  /** Nothing about the actuator, its budgets or its history differs. */
  predicate SameActuator(a: State, b: State) {
    && a.policy == b.policy && a.appliedCode == b.appliedCode && a.dacEpoch == b.dacEpoch
    && a.applicationCount == b.applicationCount && a.movement == b.movement
    && a.lastApplication == b.lastApplication && a.chatterOrigin == b.chatterOrigin && a.directions == b.directions
  }

  function StampOf(o: Observation): Stamp {
    Stamp(o.timestampS, o.timestampTicks)
  }

  /** A decision either proposes, and then its whole record is what is outstanding, or asks for no movement. */
  predicate Effect(s: State, o: Observation, out: Outcome) {
    && SameActuator(s, out.state)
    && (if out.decision.delta != 0 then
          && out.state.pending == Some(Pending(out.decision, StampOf(o))) && out.state.failReason == None
          && out.state.metadataHold == s.metadataHold && out.state.debt.Total() == out.decision.committedDebt
          && out.decision.code == s.appliedCode + out.decision.delta
        else
          !out.decision.maintenance && out.state.pending in {None, s.pending})
  }

  lemma WhenReadyEffect(s: State, o: Observation, p: Proposal)
    requires s.pending == None && s.failReason == None
    ensures Effect(s, o, RequestWhenReady(s, o, p))
    ensures RequestWhenReady(s, o, p).decision.maintenance ==> RequestWhenReady(s, o, p).decision.delta != 0
    ensures RequestWhenReady(s, o, p).decision.delta != 0 ==>
              var d := RequestWhenReady(s, o, p).decision;
              d.maintenance == p.maintenance && d.cap == p.cap && d.raw == p.raw && d.delta == p.delta
  {
    hide RepeatedAlternation, LowEfficiency, Request;
    RequestEffect(s, o, p);
  }

  lemma RequestEffect(s: State, o: Observation, p: Proposal)
    requires s.pending == None && s.failReason == None
    ensures p.delta != 0 ==> Effect(s, o, Request(s, o, p))
    ensures var d := Request(s, o, p).decision;
            d.maintenance == p.maintenance && d.cap == p.cap && d.raw == p.raw && d.delta == p.delta
  {
    hide RepeatedAlternation;
  }

  lemma RequestOrHoldEffect(s: State, o: Observation, p: Proposal)
    requires s.pending == None && s.failReason == None
    ensures Effect(s, o, RequestOrHold(s, o, p))
    ensures RequestOrHold(s, o, p).decision.maintenance ==>
              p.maintenance && RequestOrHold(s, o, p).decision.delta == p.delta
    ensures RequestOrHold(s, o, p).decision.delta != 0 ==>
              RequestOrHold(s, o, p).decision.maintenance == p.maintenance
              && RequestOrHold(s, o, p).decision.cap == p.cap && RequestOrHold(s, o, p).decision.raw == p.raw
  {
    hide RequestWhenReady, CadenceStatus;
    WhenReadyEffect(s, o, p);
  }

  lemma ResetSame(s: State, preserveDebt: bool)
    ensures SameActuator(s, Reset(s, preserveDebt)) && Reset(s, preserveDebt).pending == s.pending
    ensures Reset(s, preserveDebt).metadataHold == s.metadataHold && Reset(s, preserveDebt).failReason == s.failReason
    ensures Reset(s, preserveDebt).metadataRequalified == s.metadataRequalified
    ensures Reset(s, preserveDebt).requalification == s.requalification
    ensures Reset(s, preserveDebt).persistence == NO_PERSISTENCE
  {
  }

  lemma PersistedSame(s: State, o: Observation, sign: int)
    ensures var r := Persisted(s, o, sign);
            && SameActuator(s, r) && r.pending == s.pending && r.metadataHold == s.metadataHold
            && r.failReason == s.failReason
  {
    hide IdentityOf;
  }

  lemma GapSame(s: State, o: Observation)
    ensures SameActuator(s, GapState(s, o)) && GapState(s, o).pending == s.pending
  {
    hide IdentityOf, CentreSign;
  }

  lemma HeldEffect(s: State, o: Observation, r: State, reason: Reason, cap: int, projection: Projection)
    requires SameActuator(s, r) && r.pending in {None, s.pending}
    ensures Effect(s, o, HoldProjected(r, reason, cap, projection)) && Effect(s, o, Hold(r, reason))
    ensures Effect(s, o, Fail(r, reason))
    ensures !HoldProjected(r, reason, cap, projection).decision.maintenance
  {
  }

  lemma EffectFrom(s: State, r: State, o: Observation, out: Outcome)
    requires SameActuator(s, r) && r.pending == s.pending && r.metadataHold == s.metadataHold && Effect(r, o, out)
    ensures Effect(s, o, out)
  {
  }

  lemma MaintenanceWindowEffect(s: State, o: Observation, hold: Option<Reason>, projection: Projection)
    requires s.pending == None && s.failReason == None
    ensures Effect(s, o, MaintenanceWindow(Bits32, s, o, hold, projection))
  {
    hide RequestOrHold, Persisted, Reset, Cap, MaintenanceProposal, CadenceStatus, CentreSign, Effect, SameActuator,
      Fail, HoldProjected;
    ResetSame(s, false);
    HeldEffect(s, o, Reset(s, false), ZeroContaining, 0, projection);
    PersistedSame(s, o, CentreSign(o));
    var r := Persisted(s, o, CentreSign(o));
    var cap := Cap(Bits32, r, Centre(o), o.appliedCode);
    if hold.Some? {
      HeldEffect(s, o, r, hold.value, cap, projection);
    }
    HeldEffect(s, o, r, TimestampBackward, cap, projection);
    HeldEffect(s, o, r, CadenceHold, cap, projection.(cadenceLimited := true));
    HeldEffect(s, o, r, FirstIntervalHold, cap, projection);
    RequestOrHoldEffect(r, o, MaintenanceProposal(r, o, cap, projection));
    EffectFrom(s, r, o, RequestOrHold(r, o, MaintenanceProposal(r, o, cap, projection)));
  }

  lemma OrdinaryEffect(s: State, o: Observation, delta: int, path: Path, phaseTerm: int, resetDebt: bool,
                       enforcePhase: bool, projection: Projection)
    requires s.pending == None && s.failReason == None
    ensures var out := OrdinaryRequest(s, o, delta, path, phaseTerm, resetDebt, enforcePhase, projection);
            Effect(s, o, out) && !out.decision.maintenance
  {
    hide RequestOrHold, Reset, Effect, SameActuator;
    ResetSame(s, !resetDebt);
    var r := Reset(s, !resetDebt);
    var p := Proposal(delta, path, r.policy.maximumStep, 0, 0, phaseTerm, phaseTerm, enforcePhase, false, projection);
    RequestOrHoldEffect(r, o, p);
    EffectFrom(s, r, o, RequestOrHold(r, o, p));
  }

  lemma DropSame(s: State)
    ensures SameActuator(s, DropPhaseDebt(s)) && DropPhaseDebt(s).pending == s.pending
    ensures DropPhaseDebt(s).metadataHold == s.metadataHold && DropPhaseDebt(s).failReason == s.failReason
    ensures DropPhaseDebt(s).metadataRequalified == s.metadataRequalified
    ensures DropPhaseDebt(s).requalification == s.requalification
    ensures DropPhaseDebt(s).persistence == NO_PERSISTENCE
  {
  }

  lemma ControlEffect(s: State, o: Observation, hold: Option<Reason>)
    requires Deciding(s) && Admitted(o) && WindowOnlyHold(hold)
    ensures Effect(s, o, Settle(ControlDecide(Bits32, s, o, hold)))
    ensures Settle(ControlDecide(Bits32, s, o, hold)).decision.maintenance ==>
              s.persistence.lastClosing in {None, Some(o.opening)} &&
              exists projection :: Settle(ControlDecide(Bits32, s, o, hold))
                == MaintenanceWindow(Bits32, s, o, hold, projection)
  {
    hide MaintenanceWindow, MaintenanceDecide, GapRestart, OrdinaryRequest, Reset, Effect, SameActuator, Settle,
      LimitedDelta, CombinedDemand, FrequencyDemand, Holds, DropPhaseDebt, HoldProjected, OrdinalAtOrAfter;
    ControlCases(s, o, hold);
    DecidingHolds(s);
    DropSame(s);
    ResetSame(s, false);
    if !o.phaseValid {
      var r := DropPhaseDebt(s);
      var (delta, projection) := OrdinaryDelta(r, o, false);
      if hold.Some? {
        HeldEffect(s, o, r, hold.value, 0, projection);
      }
      OrdinaryEffect(r, o, delta, Degraded, 0, false, false, projection);
      EffectFrom(s, r, o, OrdinaryRequest(r, o, delta, Degraded, 0, false, false, projection));
    } else {
      var (delta, projection) := OrdinaryDelta(s, o, true);
      if hold.Some? {
        HeldEffect(s, o, Reset(s, false), hold.value, 0, projection);
      }
      OrdinaryEffect(s, o, delta, DirectPath(o), PhaseCentre(o), true, true, projection);
      MaintenanceCases(s, o, hold, projection);
      SameSelf(s);
      HeldEffect(s, o, s, SourceOverlapHold, 0, projection);
      GapOutcome(s, o, projection);
      GapSame(s, o);
      HeldEffect(s, o, GapState(s, o), if CentreSign(o) == 0 then ZeroContaining else SourceGapRestart, 0, projection);
      MaintenanceWindowEffect(s, o, hold, projection);
    }
  }

  lemma SameSelf(s: State)
    ensures SameActuator(s, s)
  {
  }

  // ---- reaching the measurement ------------------------------------------------------------

  function Qualified(s: State, o: Observation): State {
    IdentityChange(Observed(s, o), o)
  }

  /** The state control sees, and the requalification hold it must respect. */
  function Gated(s: State, o: Observation): (State, Option<Reason>) {
    AdvanceRequalification(Qualified(s, o), o)
  }

  /** Everything that must be in order before the measurement is looked at. */
  predicate ReachesMeasurement(s: State, o: Observation) {
    && s.decisionSequence != MAXIMUM_U64 && s.failReason == None && GoodClock(o) && ExactSpan(o)
    && s.pending == None && !s.responsePending
    && o.metadataQualified && (s.metadataHold ==> s.metadataRequalified)
    && o.appliedCode == s.appliedCode && o.dacEpoch == s.dacEpoch
    && Qualified(s, o).failReason == None && o.authorityValid && o.settled
    && WindowOnlyHold(Gated(s, o).1)
  }

  lemma GatedSame(s: State, o: Observation)
    requires Holds(s) && Typed(o) && ReachesMeasurement(s, o)
    ensures var r := Gated(s, o).0;
            && Deciding(r) && Admitted(o) && ClockSet(r, o) && SameActuator(s, r)
            && (r.persistence == s.persistence || r.persistence == NO_PERSISTENCE)
            && (Gated(s, o).1 == None ==> !r.metadataHold)
  {
    hide Holds, Deciding, Reset, FailStatic, ExactSpan, Typed;
    SequenceBound(s);
    ObservedKeeps(s, o);
    ObservedFrame(s, o);
    HoldsDeciding(Observed(s, o));
    IdentityChangeKeeps(Observed(s, o), o);
    IdentitySame(Observed(s, o), o);
    AdvanceKeeps(Qualified(s, o), o);
    AdvanceSame(Qualified(s, o), o);
    DecidingHolds(Qualified(s, o));
  }

  lemma IdentitySame(s: State, o: Observation)
    ensures SameActuator(s, IdentityChange(s, o)) && IdentityChange(s, o).metadataHold == s.metadataHold
    ensures IdentityChange(s, o).metadataRequalified == s.metadataRequalified
    ensures IdentityChange(s, o).requalification == s.requalification
    ensures IdentityChange(s, o).persistence in {s.persistence, NO_PERSISTENCE}
  {
    hide IdentityOf, Reset, DropPhaseDebt;
    ResetSame(s, false);
    DropSame(s);
  }

  lemma AdvanceSame(s: State, o: Observation)
    ensures SameActuator(s, AdvanceRequalification(s, o).0)
    ensures AdvanceRequalification(s, o).1 == None && (s.metadataHold ==> s.metadataRequalified) ==>
              !AdvanceRequalification(s, o).0.metadataHold
    ensures AdvanceRequalification(s, o).0.persistence == s.persistence
  {
    hide IdentityOf;
  }

  lemma MeasurementDecision(s: State, o: Observation)
    requires Holds(s) && Typed(o) && ReachesMeasurement(s, o)
    ensures F.Decide(s, o) == Settle(ControlDecide(Bits32, Gated(s, o).0, o, Gated(s, o).1))
  {
    hide Holds, Deciding, ControlDecide, IdentityChange, AdvanceRequalification, Settle, QualifiedDecide, F.Decide,
      FrontierDecide, ExactSpan, Typed, Reset;
    SequenceBound(s);
    DecideCases(s, o);
    ObservedKeeps(s, o);
    ObservedFrame(s, o);
    HoldsDeciding(Observed(s, o));
    FrontierCases(Observed(s, o), o);
    QualifiedCases(Observed(s, o), o);
  }

  /** Short of the measurement a decision asks for nothing. */
  lemma QuietDecision(s: State, o: Observation)
    requires Holds(s) && Typed(o) && !ReachesMeasurement(s, o)
    ensures Effect(s, o, F.Decide(s, o)) && F.Decide(s, o).decision.delta == 0
  {
    hide Holds, Deciding, ControlDecide, IdentityChange, AdvanceRequalification, Settle, QualifiedDecide, F.Decide,
      ExactSpan, Typed, Reset;
    DecideCases(s, o);
    FrontierCases(Observed(s, o), o);
    if s.decisionSequence != MAXIMUM_U64 && s.failReason == None && GoodClock(o) && ExactSpan(o)
       && s.pending == None && !s.responsePending && o.metadataQualified && (s.metadataHold ==> s.metadataRequalified)
       && o.appliedCode == s.appliedCode && o.dacEpoch == s.dacEpoch {
      QuietQualified(s, o);
    } else {
      ResetSame(Observed(s, o).(metadataHold := true, metadataRequalified := false,
        requalification := NO_REQUALIFICATION), true);
    }
  }

  lemma QuietQualified(s: State, o: Observation)
    requires Holds(s) && Typed(o) && !ReachesMeasurement(s, o)
    requires s.decisionSequence != MAXIMUM_U64 && s.failReason == None && GoodClock(o) && ExactSpan(o)
    requires s.pending == None && !s.responsePending && o.metadataQualified
             && (s.metadataHold ==> s.metadataRequalified)
    requires o.appliedCode == s.appliedCode && o.dacEpoch == s.dacEpoch
    ensures var out := Settle(QualifiedDecide(Bits32, Observed(s, o), o));
            Effect(s, o, out) && out.decision.delta == 0
  {
    hide Holds, Deciding, ControlDecide, IdentityChange, AdvanceRequalification, Settle, QualifiedDecide, ExactSpan,
      Typed, Reset;
    SequenceBound(s);
    ObservedKeeps(s, o);
    ObservedFrame(s, o);
    HoldsDeciding(Observed(s, o));
    QualifiedCases(Observed(s, o), o);
    IdentityChangeKeeps(Observed(s, o), o);
    IdentitySame(Observed(s, o), o);
    HoldsTransaction(Qualified(s, o));
    ResetSame(Qualified(s, o), true);
    AdvanceSame(Qualified(s, o), o);
    if Qualified(s, o).failReason == None {
      AdvanceKeeps(Qualified(s, o), o);
      DecidingHolds(Gated(s, o).0);
      DecidingHolds(Qualified(s, o));
    }
  }

  lemma HoldsTransaction(s: State)
    requires Holds(s)
    ensures s.failReason.Some? ==> s.pending == None
  {
  }

  /** Every decision of a reachable engine, in one statement. */
  lemma DecisionEffect(s: State, o: Observation)
    requires Holds(s) && Typed(o)
    ensures SameActuator(s, F.Decide(s, o).state)
    ensures F.Decide(s, o).decision.delta != 0 ==>
              && ReachesMeasurement(s, o) && s.pending == None
              && F.Decide(s, o).state.pending == Some(Pending(F.Decide(s, o).decision, StampOf(o)))
              && !F.Decide(s, o).state.metadataHold && Gated(s, o).1 == None
              && F.Decide(s, o).decision.code == s.appliedCode + F.Decide(s, o).decision.delta
    ensures F.Decide(s, o).decision.delta == 0 ==>
              !F.Decide(s, o).decision.maintenance && F.Decide(s, o).state.pending in {None, s.pending}
  {
    hide Holds, Deciding, ControlDecide, IdentityChange, AdvanceRequalification, Settle, F.Decide, ExactSpan, Typed,
      Reset, ReachesMeasurement, Gated;
    if ReachesMeasurement(s, o) {
      MeasurementDecision(s, o);
      GatedSame(s, o);
      ReachedPending(s, o);
      ControlEffect(Gated(s, o).0, o, Gated(s, o).1);
      HeldRequestsNothing(Gated(s, o).0, o, Gated(s, o).1);
      DecidingHolds(Gated(s, o).0);
    } else {
      QuietDecision(s, o);
    }
  }

  lemma ReachedPending(s: State, o: Observation)
    requires ReachesMeasurement(s, o)
    ensures s.pending == None && WindowOnlyHold(Gated(s, o).1)
  {
  }

  /** Under a requalification hold no path proposes a movement. */
  lemma HeldRequestsNothing(s: State, o: Observation, hold: Option<Reason>)
    requires Deciding(s) && Admitted(o) && WindowOnlyHold(hold)
    ensures Settle(ControlDecide(Bits32, s, o, hold)).decision.delta != 0 ==> hold == None
  {
    hide GapWindow, Persisted, Cap, CentreSign, LimitedDelta, CombinedDemand, FrequencyDemand, Holds, Reset,
      OrdinaryRequest, RequestOrHold, Deciding, Admitted, IdentityOf, AtOrAfter;
  }

  // ---- maintenance requests ------------------------------------------------------------------

  /** The window state behind a maintenance request. */
  function Windowed(s: State, o: Observation): State {
    Persisted(Gated(s, o).0, o, CentreSign(o))
  }

  lemma WindowRequest(s: State, o: Observation, projection: Projection)
    requires MaintenanceWindow(Bits32, s, o, None, projection).decision.maintenance
    ensures var p := Persisted(s, o, CentreSign(o));
            && CentreSign(o) != 0 && p.persistence.count >= 2
            && MaintenanceWindow(Bits32, s, o, None, projection)
               == RequestOrHold(p, o, MaintenanceProposal(p, o, Cap(Bits32, p, Centre(o), o.appliedCode), projection))
  {
    hide RequestOrHold, Persisted, Reset, Cap, MaintenanceProposal, CadenceStatus, CentreSign;
  }

  /** Where a maintenance request comes from, and the record it leaves. */
  lemma MaintenanceOrigin(s: State, o: Observation)
    requires Holds(s) && Typed(o) && F.Decide(s, o).decision.maintenance
    ensures ReachesMeasurement(s, o) && CentreSign(o) != 0
    ensures var p, d := Windowed(s, o), F.Decide(s, o).decision;
            && Deciding(p) && SameActuator(s, p) && p.persistence.count == 2
            && d.delta != 0 && d.cap == Cap(Bits32, p, Centre(o), o.appliedCode)
            && d.raw == CentreToPicocodes(Centre(o))
            && d.delta == Clamp(RoundRatio(d.raw + p.debt.Total(), PICO), -d.cap, d.cap)
  {
    hide Holds, Deciding, ControlDecide, IdentityChange, AdvanceRequalification, Settle, F.Decide, ExactSpan, Typed,
      Reset, ReachesMeasurement, Gated, MaintenanceWindow, RequestOrHold, Cap, CadenceStatus, SameActuator,
      CentreToPicocodes, RoundRatio, Persisted, CentreSign, Effect;
    DecisionEffect(s, o);
    MeasurementDecision(s, o);
    GatedSame(s, o);
    ReachedPending(s, o);
    var q := Gated(s, o).0;
    ControlEffect(q, o, None);
    var projection :| F.Decide(s, o) == MaintenanceWindow(Bits32, q, o, None, projection);
    WindowRequest(q, o, projection);
    SignRange(o);
    PersistedKeeps(q, o, CentreSign(o));
    PersistedSame(q, o, CentreSign(o));
    DecidingHolds(Windowed(s, o));
    SameTransitive(s, q, Windowed(s, o));
    var p := Windowed(s, o);
    RequestOrHoldEffect(p, o, MaintenanceProposal(p, o, Cap(Bits32, p, Centre(o), o.appliedCode), projection));
  }

  lemma SameTransitive(a: State, b: State, c: State)
    requires SameActuator(a, b) && SameActuator(b, c)
    ensures SameActuator(a, c)
  {
  }

  /**
   Every maintenance request moves toward the centre's sign, stays in the code range, and
   for any plant gain up to the plant maximum cannot carry the nearest edge past zero.
   */
  lemma MaintenanceRequestIsSafe(s: State, o: Observation, gain: nat)
    requires Holds(s) && Typed(o) && F.Decide(s, o).decision.maintenance && gain <= 173_340_101
    ensures var d := F.Decide(s, o).decision;
            && Abs(Centre(o)) > 18
            && (d.delta > 0 <==> Centre(o) > 0) && (d.delta < 0 <==> Centre(o) < 0)
            && InRange(s.policy, d.code) && Abs(d.delta) <= s.policy.maximumStep
            && Abs(d.delta) * (21_600 * gain) <= (Abs(Centre(o)) - 18) * 1_000_000_000_000
  {
    hide Holds, Typed, F.Decide, ReachesMeasurement, Windowed, RoundRatio, CentreToPicocodes, Cap, Deciding;
    MaintenanceOrigin(s, o);
    DecisionEffect(s, o);
    ReachedCode(s, o);
    var p, d := Windowed(s, o), F.Decide(s, o).decision;
    DebtOf(p);
    PolicyOf(p);
    CapBounds(p, Centre(o), o.appliedCode);
    MaintenanceDirection(p, o, d.cap, NO_PROJECTION);
    TravelWithinCap(Abs(d.delta), d.cap, gain);
  }

  lemma TravelWithinCap(steps: nat, cap: int, gain: nat)
    requires steps <= cap && gain <= PLANT_GAIN
    ensures steps * (21_600 * gain) <= cap * (21_600 * PLANT_GAIN)
  {
    MulAtMost(21_600 * gain, 21_600 * PLANT_GAIN, steps);
    assert steps * (21_600 * gain) == (21_600 * gain) * steps;
  }

  lemma DebtOf(s: State)
    requires Deciding(s)
    ensures DebtBounded(s.debt)
  {
  }

  lemma ReachedCode(s: State, o: Observation)
    requires ReachesMeasurement(s, o)
    ensures o.appliedCode == s.appliedCode && o.dacEpoch == s.dacEpoch
  {
  }

  // ---- debt --------------------------------------------------------------------------------

  /** Half a code is the most rounding can leave. */
  lemma RoundingResidual(total: int)
    ensures Abs(total - RoundRatio(total, PICO) * PICO) <= DEBT_LIMIT
  {
    RoundRatioIsNearest(total, PICO);
  }

  /** A clamped rounding leaves no more than half a code exactly when the cap did not bind, or bound at a half. */
  lemma ClampedResidual(total: int, cap: int)
    requires cap >= 0
    ensures Abs(total - Clamp(RoundRatio(total, PICO), -cap, cap) * PICO) <= DEBT_LIMIT
            <==> Abs(RoundRatio(total, PICO)) <= cap || 2 * Abs(total) == (2 * cap + 1) * PICO
  {
    RoundingResidual(total);
    hide RoundRatio;
    var rounded := RoundRatio(total, PICO);
    assert Abs(total - rounded * PICO) <= DEBT_LIMIT;
  }

  /**
   Conservation.  The debt an application starts from is the debt its decision saw.  The
   demand and that debt are exactly the codes applied and the new debt, so the clamp loses
   nothing, if and only if the cap did not bind or the demand was half a code above it.
   */
  lemma DebtIsConserved(s: State, d: Decision, code: int, dacEpoch: int, exact: bool)
    requires Holds(s) && F.Confirm(s, d, code, dacEpoch, exact).ok && d.maintenance
    ensures var p, demand := s.pending.value.decision, d.raw + s.debt.Total();
            && p.committedDebt == s.debt.Total()
            && (demand == d.delta * PICO + F.Confirm(s, d, code, dacEpoch, exact).state.debt.Total()
                <==> Abs(RoundRatio(demand, PICO)) <= p.cap || 2 * Abs(demand) == (2 * p.cap + 1) * PICO)
            && DebtBounded(F.Confirm(s, d, code, dacEpoch, exact).state.debt)
  {
    hide RoundRatio, ResidualDebt, Holds, F.Confirm, Clamp, DebtBounded, Abs;
    CommittedDebt(s, d, code, dacEpoch, exact);
    var p := s.pending.value.decision;
    ResidualDebtBounded(s.debt, p);
    var demand := p.raw + s.debt.Total();
    ClampedResidual(demand, p.cap);
    ClampKeeps(demand - p.delta * PICO);
  }

  lemma ClampKeeps(x: int)
    ensures Clamp(x, -DEBT_LIMIT, DEBT_LIMIT) == x <==> Abs(x) <= DEBT_LIMIT
  {
  }

  lemma CommittedDebt(s: State, d: Decision, code: int, dacEpoch: int, exact: bool)
    requires Holds(s) && F.Confirm(s, d, code, dacEpoch, exact).ok && d.maintenance
    ensures s.pending.Some?
    ensures var p := s.pending.value.decision;
            && p.raw == d.raw && p.delta == d.delta && p.committedDebt == s.debt.Total() && p.cap >= 0
            && p.delta == Clamp(RoundRatio(p.raw + s.debt.Total(), PICO), -p.cap, p.cap)
            && F.Confirm(s, d, code, dacEpoch, exact).state.debt == ResidualDebt(s.debt, p)
  {
    hide RoundRatio, ResidualDebt, Clamp;
  }

  /** The frequency tag takes its share of the new debt by the candidates' magnitudes, to the nearest picocode. */
  lemma DebtIsShared(s: State, d: Decision, code: int, dacEpoch: int, exact: bool)
    requires Holds(s) && F.Confirm(s, d, code, dacEpoch, exact).ok && d.maintenance
    ensures var debt, f, p := F.Confirm(s, d, code, dacEpoch, exact).state.debt, Abs(d.fll + s.debt.fll),
                              Abs(d.pll + s.debt.pll);
            if f + p == 0 then debt.pll == 0
            else 2 * Abs(debt.fll * (f + p) - debt.Total() * f) <= f + p
  {
    hide RoundRatio;
    CommittedDebt(s, d, code, dacEpoch, exact);
    var q := s.pending.value.decision;
    SameDemand(s, d, code, dacEpoch, exact);
    var residual := Clamp(q.raw + s.debt.Total() - q.delta * PICO, -DEBT_LIMIT, DEBT_LIMIT);
    var f, p := Abs(q.fll + s.debt.fll), Abs(q.pll + s.debt.pll);
    if f + p != 0 {
      RoundRatioIsNearest(residual * f, f + p);
    }
  }

  lemma SameDemand(s: State, d: Decision, code: int, dacEpoch: int, exact: bool)
    requires F.Confirm(s, d, code, dacEpoch, exact).ok
    ensures s.pending.Some? && s.pending.value.decision.fll == d.fll && s.pending.value.decision.pll == d.pll
  {
    hide Commit;
  }

  /** An ordinary application leaves no debt. */
  lemma OrdinaryClearsDebt(s: State, d: Decision, code: int, dacEpoch: int, exact: bool)
    requires F.Confirm(s, d, code, dacEpoch, exact).ok && !d.maintenance
    ensures F.Confirm(s, d, code, dacEpoch, exact).state.debt == Debt(0, 0)
  {
    hide ResidualDebt;
  }

  // ---- transaction ---------------------------------------------------------------------------

  /** What a committed application changes, and that its cadence was kept. */
  lemma ApplicationEffect(s: State, d: Decision, code: int, dacEpoch: int, exact: bool)
    requires Holds(s) && F.Confirm(s, d, code, dacEpoch, exact).ok
    ensures s.pending.Some?
    ensures var t := F.Confirm(s, d, code, dacEpoch, exact).state;
            && d.delta != 0 && t.appliedCode == s.appliedCode + d.delta && t.dacEpoch == (s.dacEpoch + 1) % WORD
            && t.lastApplication.Some? && t.lastApplication.value.ticks == d.ticks
            && t.lastApplication == Some(s.pending.value.stamp)
            && (s.lastApplication.Some? ==>
                  d.ticks >= s.lastApplication.value.ticks + s.policy.minimumCadenceS * TICKS_PER_SECOND)
            && t.policy == s.policy && t.chatterOrigin == s.chatterOrigin && t.responsePending && t.pending == None
  {
    hide RoundRatio, ResidualDebt;
  }

  /** A refused application fails the engine static and moves nothing. */
  lemma RefusedApplication(s: State, d: Decision, code: int, dacEpoch: int, exact: bool)
    requires !F.Confirm(s, d, code, dacEpoch, exact).ok
    ensures var t := F.Confirm(s, d, code, dacEpoch, exact).state;
            t.failReason.Some? && SameActuator(s, t) && t.debt == s.debt && t.pending == None && !t.responsePending
  {
    hide MatchesSnapshot;
  }

  lemma FailStaticDecision(s: State, o: Observation)
    requires Holds(s) && s.failReason.Some?
    ensures var out := F.Decide(s, o);
            && out.state.failReason.Some? && SameActuator(s, out.state) && out.state.pending == None
            && out.decision.delta == 0 && out.decision.code == s.appliedCode
  {
    hide Holds, F.Decide, FrontierDecide;
    HoldsTransaction(s);
    DecideCases(s, o);
  }

  /** Once fail-static, every call leaves the engine fail-static and its actuator alone, and no decision moves. */
  lemma FailStaticIsSticky(s: State, e: Event)
    requires Holds(s) && s.failReason.Some?
    ensures var r := F.Step(s, e);
            && r.state.failReason.Some? && r.state.appliedCode == s.appliedCode && r.state.dacEpoch == s.dacEpoch
            && r.state.applicationCount == s.applicationCount && r.state.pending == None
            && (r.decision.Some? ==> r.decision.value.delta == 0 && r.decision.value.code == s.appliedCode)
            && !(e.Applied? && r.ok)
  {
    hide Holds, MatchesSnapshot, F.Decide, Commit;
    HoldsTransaction(s);
    if e.Observe? {
      FailStaticDecision(s, e.observation);
    }
  }

  /** With a movement budget, the applications are bounded by the width of the code range. */
  lemma ApplicationsAreBounded(s: State)
    requires Holds(s) && s.policy.maximumMovement != 0
    ensures s.applicationCount <= s.movement <= s.policy.maximumMovement
    ensures s.movement < 42 || s.movement < 4 * (s.policy.maximumCode - s.policy.minimumCode)
  {
  }

  // ---- the other calls -----------------------------------------------------------------------

  /** When each remaining call is accepted. */
  predicate Accepts(s: State, e: Event) {
    match e
    case Observe(o) => true
    case Expire => s.pending.Some? && !s.responsePending
    case Applied(d, code, dacEpoch, exact) => F.Confirm(s, d, code, dacEpoch, exact).ok
    case Respond(freshExact) => s.responsePending && freshExact
    case MetadataLost => s.pending == None
    case MetadataFresh(epoch, ordinal) =>
      s.metadataHold && s.pending == None && !s.responsePending && epoch > 0 && 0 <= ordinal <= 0xFFFF_FFFF
    case PolicyActivated => s.pending == None && !s.responsePending
    case SetupBound(ticks) =>
      && ticks != 0 && s.lastApplication == None && s.pending == None && !s.responsePending
      && s.applicationCount == 0 && s.dacEpoch != 0
  }

  /**
   Each remaining call succeeds exactly when it is accepted; then it changes its own fields
   only, and otherwise the state is kept, but for the two refusals that fail the engine.
   */
  lemma CallsMean(s: State, e: Event)
    requires !e.Observe? && !e.Applied?
    ensures var r := F.Step(s, e);
            && (r.ok <==> Accepts(s, e)) && r.decision == None
            && (if !r.ok then
                  if e.Expire? then
                    r.state == s.(failReason := Some(InvalidRejection), pending := None, responsePending := false)
                  else if e.PolicyActivated? then
                    r.state == s.(failReason := Some(ActivationWithTransaction), pending := None,
                      responsePending := false)
                  else r.state == s
                else match e
                     case Expire => r.state == s.(pending := None)
                     case Respond(_) => r.state == s.(responsePending := false)
                     case MetadataLost =>
                       r.state == s.(metadataHold := true, metadataRequalified := false,
                                     requalification := NO_REQUALIFICATION, persistence := NO_PERSISTENCE)
                     case MetadataFresh(epoch, ordinal) =>
                       r.state == s.(metadataRequalified := true, persistence := NO_PERSISTENCE,
                                     requalification := Requalification(Some(epoch), Some(ordinal), 0, None, None))
                     case PolicyActivated => r.state == s.(debt := Debt(0, 0), persistence := NO_PERSISTENCE)
                     case SetupBound(ticks) =>
                       r.state == s.(lastApplication := Some(Stamp(ticks / 1_000_000, ticks)))
                     case _ => true)
  {
  }

  /** An application is committed exactly when it is the outstanding proposal, moved, confirmed, and next in epoch. */
  lemma ApplicationAccepted(s: State, d: Decision, code: int, dacEpoch: int, exact: bool)
    ensures F.Confirm(s, d, code, dacEpoch, exact).ok
            <==> && s.pending.Some? && !s.responsePending && d.delta != 0 && exact
                 && d == s.pending.value.decision.(reason := d.reason, cap := d.cap,
                    persistenceCount := d.persistenceCount,
                                                   committedDebt := d.committedDebt)
                 && code == s.pending.value.decision.code && dacEpoch == (s.dacEpoch + 1) % 0x1_0000_0000_0000_0000
    ensures !F.Confirm(s, d, code, dacEpoch, exact).ok ==>
              F.Confirm(s, d, code, dacEpoch, exact).state.failReason in {Some(UnexpectedApplication),
                Some(InexactConsumer)}
  {
    hide Commit;
  }
}
