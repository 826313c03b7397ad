/** How single transitions move the persistence window and the requalification gate. */
module Windows {
  import opened Words
  import opened Controller
  import opened Firmware
  import opened Invariant
  import opened Cases
  import opened Safety
  import F = Firmware

  // ---- persistence -----------------------------------------------------------------------

  /** The window records this observation. */
  predicate Records(p: Persistence, o: Observation) {
    p.identity == Some(IdentityOf(o)) && p.sign == CentreSign(o) && p.lastClosing == Some(o.closing)
  }

  /** The window is empty, as it was, or records this observation. */
  predicate WindowFrom(was: Persistence, now: Persistence, o: Observation) {
    now == NO_PERSISTENCE || now == was || Records(now, o)
  }

  /** The hold and its requalification are untouched. */
  predicate SameMetadata(a: State, b: State) {
    a.metadataHold == b.metadataHold && a.metadataRequalified == b.metadataRequalified
    && a.requalification == b.requalification
  }

  /** What control may do to window and gate. */
  predicate Gentle(s: State, o: Observation, out: Outcome) {
    SameMetadata(s, out.state) && WindowFrom(s.persistence, out.state.persistence, o)
  }

  lemma RequestOrHoldGentle(s: State, o: Observation, p: Proposal)
    ensures SameMetadata(s, RequestOrHold(s, o, p).state)
    ensures RequestOrHold(s, o, p).state.persistence == s.persistence
  {
    hide RepeatedAlternation, LowEfficiency, CadenceStatus;
  }

  lemma SmallGentle(s: State, o: Observation, preserveDebt: bool)
    ensures SameMetadata(s, Reset(s, preserveDebt)) && Reset(s, preserveDebt).persistence == NO_PERSISTENCE
    ensures SameMetadata(s, DropPhaseDebt(s)) && DropPhaseDebt(s).persistence == NO_PERSISTENCE
    ensures var r := Persisted(s, o, CentreSign(o));
            SameMetadata(s, r) && Records(r.persistence, o)
    ensures SameMetadata(s, GapState(s, o)) && WindowFrom(s.persistence, GapState(s, o).persistence, o)
  {
    hide IdentityOf, CentreSign, GapState, Persisted, Records, WindowFrom;
    PersistedGentle(s, o);
    GapGentle(s, o);
  }

  lemma PersistedGentle(s: State, o: Observation)
    ensures var r := Persisted(s, o, CentreSign(o));
            SameMetadata(s, r) && Records(r.persistence, o)
  {
    hide IdentityOf, CentreSign;
  }

  lemma GapGentle(s: State, o: Observation)
    ensures SameMetadata(s, GapState(s, o)) && WindowFrom(s.persistence, GapState(s, o).persistence, o)
  {
    hide IdentityOf, CentreSign, GapState;
    GapStateIs(s, o);
  }

  lemma WindowGentle(s: State, o: Observation, hold: Option<Reason>, projection: Projection)
    ensures Gentle(s, o, MaintenanceWindow(Bits32, s, o, hold, projection))
  {
    hide RequestOrHold, CadenceStatus, Cap, MaintenanceProposal, CentreSign, Persisted, Reset, Records;
    SmallGentle(s, o, false);
    var r := Persisted(s, o, CentreSign(o));
    RequestOrHoldGentle(r, o, MaintenanceProposal(r, o, Cap(Bits32, r, Centre(o), o.appliedCode), projection));
  }

  lemma DirectGentle(s: State, o: Observation, delta: int, path: Path, phaseTerm: int, resetDebt: bool,
                     enforcePhase: bool, projection: Projection)
    ensures Gentle(s, o, OrdinaryRequest(s, o, delta, path, phaseTerm, resetDebt, enforcePhase, projection))
  {
    hide RequestOrHold, Reset, CentreSign, Persisted, GapState;
    SmallGentle(s, o, !resetDebt);
    var r := Reset(s, !resetDebt);
    RequestOrHoldGentle(r, o,
      Proposal(delta, path, r.policy.maximumStep, 0, 0, phaseTerm, phaseTerm, enforcePhase, false,
                                       projection));
  }

  lemma ControlGentle(s: State, o: Observation, hold: Option<Reason>)
    requires Deciding(s) && Admitted(o) && WindowOnlyHold(hold)
    ensures Gentle(s, o, Settle(ControlDecide(Bits32, s, o, hold)))
  {
    hide MaintenanceWindow, MaintenanceDecide, GapRestart, OrdinaryRequest, Reset, Settle, LimitedDelta,
      CombinedDemand, FrequencyDemand, Holds, DropPhaseDebt, OrdinalAtOrAfter, CentreSign, Persisted, GapState,
      Records;
    ControlCases(s, o, hold);
    SmallGentle(s, o, false);
    DecidingHolds(s);
    if !o.phaseValid {
      var r := DropPhaseDebt(s);
      var (delta, projection) := OrdinaryDelta(r, o, false);
      DirectGentle(r, o, delta, Degraded, 0, false, false, projection);
    } else {
      var (delta, projection) := OrdinaryDelta(s, o, true);
      DirectGentle(s, o, delta, DirectPath(o), PhaseCentre(o), true, true, projection);
      MaintenanceCases(s, o, hold, projection);
      GapOutcome(s, o, projection);
      WindowGentle(s, o, hold, projection);
    }
  }

  /** A maintenance request extends a window of the same identity and sign that closed where this one opens. */
  lemma MaintenanceExtendsWindow(s: State, o: Observation)
    requires Holds(s) && Typed(o) && F.Decide(s, o).decision.maintenance
    ensures CentreSign(o) != 0 && s.persistence.count != 0
    ensures s.persistence.identity == Some(IdentityOf(o)) && s.persistence.sign == CentreSign(o)
    ensures s.persistence.lastClosing == Some(o.opening)
  {
    hide Holds, ControlDecide, Settle, F.Decide, Typed, ReachesMeasurement, Gated, CentreSign, IdentityOf, Persisted;
    MaintenanceOrigin(s, o);
    DecisionEffect(s, o);
    GatedSame(s, o);
    MeasurementDecision(s, o);
    ReachedPending(s, o);
    ControlEffect(Gated(s, o).0, o, Gated(s, o).1);
    var q := Gated(s, o).0;
    CountTwo(q, o, CentreSign(o));
    DecidingWindow(q);
    HoldsWindow(s);
  }

  lemma CountTwo(s: State, o: Observation, sign: int)
    requires Persisted(s, o, sign).persistence.count == 2
    ensures s.persistence.count != 0 && s.persistence.identity == Some(IdentityOf(o)) && s.persistence.sign == sign
  {
    hide IdentityOf;
  }

  lemma DecidingWindow(s: State)
    requires Deciding(s)
    ensures s.persistence.count != 0 ==> s.persistence.lastClosing.Some?
  {
  }

  lemma HoldsWindow(s: State)
    requires Holds(s)
    ensures PersistenceBounded(s.persistence)
  {
  }

  lemma DecideWindow(s: State, o: Observation)
    requires Holds(s) && Typed(o)
    ensures WindowFrom(s.persistence, F.Decide(s, o).state.persistence, o)
    ensures F.Decide(s, o).state.persistence in {NO_PERSISTENCE, s.persistence}
            || (o.appliedCode == s.appliedCode && o.dacEpoch == s.dacEpoch)
  {
    hide Holds, ControlDecide, Settle, F.Decide, Typed, ReachesMeasurement, Gated, Records;
    if ReachesMeasurement(s, o) {
      MeasurementDecision(s, o);
      GatedSame(s, o);
      ReachedPending(s, o);
      ControlGentle(Gated(s, o).0, o, Gated(s, o).1);
      ReachedCode(s, o);
    } else {
      QuietWindow(s, o);
    }
  }

  lemma QuietWindow(s: State, o: Observation)
    requires Holds(s) && Typed(o) && !ReachesMeasurement(s, o)
    ensures F.Decide(s, o).state.persistence in {NO_PERSISTENCE, s.persistence}
  {
    hide Holds, Deciding, ControlDecide, IdentityChange, AdvanceRequalification, Settle, QualifiedDecide, F.Decide,
      ExactSpan, Typed, Reset;
    DecideCases(s, o);
    FrontierCases(Observed(s, o), o);
    var held := Observed(s, o).(metadataHold := true, metadataRequalified := false,
      requalification := NO_REQUALIFICATION);
    ResetSame(held, true);
    if s.decisionSequence != MAXIMUM_U64 && s.failReason == None && GoodClock(o) && ExactSpan(o)
       && s.pending == None && !s.responsePending && o.metadataQualified && (s.metadataHold ==> s.metadataRequalified)
       && o.appliedCode == s.appliedCode && o.dacEpoch == s.dacEpoch {
      QuietQualifiedWindow(s, o);
    }
  }

  lemma QuietQualifiedWindow(s: State, o: Observation)
    requires Holds(s) && Typed(o) && !ReachesMeasurement(s, o)
    requires s.decisionSequence != MAXIMUM_U64 && s.failReason == None && GoodClock(o) && ExactSpan(o)
    requires s.pending == None && !s.responsePending && o.metadataQualified
             && (s.metadataHold ==> s.metadataRequalified)
    requires o.appliedCode == s.appliedCode && o.dacEpoch == s.dacEpoch
    ensures var out := Settle(QualifiedDecide(Bits32, Observed(s, o), o));
            out.state.persistence in {NO_PERSISTENCE, s.persistence}
    ensures var out := Settle(QualifiedDecide(Bits32, Observed(s, o), o));
            SameMetadata(s, out.state)
  {
    hide Holds, Deciding, ControlDecide, IdentityChange, AdvanceRequalification, Settle, QualifiedDecide, ExactSpan,
      Typed, Reset;
    SequenceBound(s);
    ObservedKeeps(s, o);
    ObservedFrame(s, o);
    HoldsDeciding(Observed(s, o));
    QualifiedCases(Observed(s, o), o);
    IdentityChangeKeeps(Observed(s, o), o);
    IdentitySame(Observed(s, o), o);
    ResetSame(Qualified(s, o), true);
    AdvanceQuiet(Qualified(s, o), o);
  }

  /** A hold other than the window hold leaves the gate as it was. */
  lemma AdvanceQuiet(s: State, o: Observation)
    ensures var (r, hold) := AdvanceRequalification(s, o);
            r.persistence == s.persistence && (!WindowOnlyHold(hold) ==> SameMetadata(s, r))
  {
    hide IdentityOf, AtOrAfter;
  }

  // ---- requalification -----------------------------------------------------------------------

  /** An observation the requalification frontier admits. */
  predicate PastFrontier(q: Requalification, o: Observation) {
    Some(o.acceptanceEpoch) == q.epoch && q.ordinal.Some? && AtOrAfter(o.opening, q.ordinal.value)
  }

  /** The second of two contiguous windows of one identity. */
  predicate Completes(q: Requalification, o: Observation) {
    PastFrontier(q, o) && q.lastClosing == Some(o.opening) && q.identity == Some(IdentityOf(o))
  }

  /** The gate after one window: still closed and recording it, or open because it completed a pair. */
  predicate GateMoves(s: State, t: State, o: Observation) {
    s.metadataHold && s.metadataRequalified &&
    if t.metadataHold then
      && t.metadataRequalified && PastFrontier(s.requalification, o)
      && t.requalification.epoch == s.requalification.epoch && t.requalification.ordinal == s.requalification.ordinal
      && t.requalification.lastClosing == Some(o.closing) && t.requalification.identity == Some(IdentityOf(o))
    else Completes(s.requalification, o)
  }

  predicate Frozen(s: State) {
    s.metadataHold && !s.metadataRequalified
  }

  lemma AdvanceMoves(s: State, o: Observation)
    requires Deciding(s)
    ensures var r := AdvanceRequalification(s, o).0;
            SameMetadata(s, r) || GateMoves(s, r, o)
  {
    hide IdentityOf, AtOrAfter;
  }

  lemma DecideMetadata(s: State, o: Observation)
    requires Holds(s) && Typed(o)
    ensures var t := F.Decide(s, o).state;
            SameMetadata(s, t) || Frozen(t) || GateMoves(s, t, o)
  {
    hide Holds, Deciding, ControlDecide, IdentityChange, AdvanceRequalification, Settle, F.Decide, Typed,
      ReachesMeasurement;
    if ReachesMeasurement(s, o) {
      MeasurementDecision(s, o);
      GatedSame(s, o);
      ReachedPending(s, o);
      ControlGentle(Gated(s, o).0, o, Gated(s, o).1);
      IdentitySame(Observed(s, o), o);
      ObservedFrame(s, o);
      ReachedQualified(s, o);
      AdvanceMoves(Qualified(s, o), o);
    } else {
      QuietMetadata(s, o);
    }
  }

  lemma ReachedQualified(s: State, o: Observation)
    requires Holds(s) && Typed(o) && ReachesMeasurement(s, o)
    ensures Deciding(Qualified(s, o))
  {
    hide Holds, Deciding, IdentityChange, ExactSpan, Typed;
    SequenceBound(s);
    ObservedKeeps(s, o);
    ObservedFrame(s, o);
    HoldsDeciding(Observed(s, o));
    IdentityChangeKeeps(Observed(s, o), o);
  }

  lemma QuietMetadata(s: State, o: Observation)
    requires Holds(s) && Typed(o) && !ReachesMeasurement(s, o)
    ensures SameMetadata(s, F.Decide(s, o).state) || Frozen(F.Decide(s, o).state)
  {
    hide Holds, Deciding, ControlDecide, IdentityChange, AdvanceRequalification, Settle, QualifiedDecide, F.Decide,
      ExactSpan, Typed, Reset;
    DecideCases(s, o);
    FrontierCases(Observed(s, o), o);
    var held := Observed(s, o).(metadataHold := true, metadataRequalified := false,
      requalification := NO_REQUALIFICATION);
    ResetSame(held, true);
    if s.decisionSequence != MAXIMUM_U64 && s.failReason == None && GoodClock(o) && ExactSpan(o)
       && s.pending == None && !s.responsePending && o.metadataQualified && (s.metadataHold ==> s.metadataRequalified)
       && o.appliedCode == s.appliedCode && o.dacEpoch == s.dacEpoch {
      QuietQualifiedWindow(s, o);
    }
  }

  // ---- every call ------------------------------------------------------------------------

  /** An observation of the engine's own code and epoch. */
  predicate Reports(o: Observation, s: State) {
    o.appliedCode == s.appliedCode && o.dacEpoch == s.dacEpoch
  }

  /**
   The window is emptied, kept, or records an observation of the engine's own code and epoch.
   An application, an activation and either metadata call that succeed empty it.
   */
  lemma StepWindow(s: State, e: Event)
    requires Holds(s) && EventTyped(e)
    ensures var p := F.Step(s, e).state.persistence;
            || p == NO_PERSISTENCE || p == s.persistence
            || (e.Observe? && Records(p, e.observation) && Reports(e.observation, s))
    ensures F.Step(s, e).ok && (e.Applied? || e.PolicyActivated? || e.MetadataLost? || e.MetadataFresh?) ==>
              F.Step(s, e).state.persistence == NO_PERSISTENCE
  {
    hide Holds, F.Decide, ResidualDebt, MatchesSnapshot, Records, Typed;
    if e.Observe? {
      DecideWindow(s, e.observation);
    }
  }

  /** Fresh metadata opens a new gate at its frontier. */
  predicate OpensGate(t: State, e: Event) {
    e.MetadataFresh? && t.metadataHold && t.metadataRequalified
    && t.requalification == Requalification(Some(e.epoch), Some(e.ordinal), 0, None, None)
  }

  lemma StepMetadata(s: State, e: Event)
    requires Holds(s) && EventTyped(e)
    ensures var r := F.Step(s, e);
            || SameMetadata(s, r.state) || Frozen(r.state)
            || (OpensGate(r.state, e) && r.ok) || (e.Observe? && GateMoves(s, r.state, e.observation))
  {
    hide Holds, F.Decide, ResidualDebt, MatchesSnapshot, GateMoves, Typed;
    if e.Observe? {
      DecideMetadata(s, e.observation);
    }
  }

  /** An observation that proposes a movement leaves the gate open. */
  lemma RequestNeedsOpenGate(s: State, o: Observation)
    requires Holds(s) && Typed(o) && F.Decide(s, o).decision.delta != 0
    ensures !F.Decide(s, o).state.metadataHold
  {
    hide Holds, F.Decide, Typed, ReachesMeasurement, Gated;
    DecisionEffect(s, o);
  }
}
