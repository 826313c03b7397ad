/**
 Exactly where the firmware engine and the host controller agree.  `Differs` is decided
 from the state and the call before the call is made; the two transitions are equal if and
 only if it is false, and so whole runs agree while it stays false.
 */
module Agreement {
  import opened Words
  import opened Controller
  import opened Firmware
  import opened Invariant
  import C = Controller
  import F = Firmware

  // ---- the host's calls --------------------------------------------------------------------

  /** The host controller's transition; it has no call that binds a setup application. */
  function HostStep(s: State, e: Event): Result {
    match e
    case Observe(o) => Result(C.Decide(Exact, s, o).state, true, Some(C.Decide(Exact, s, o).decision))
    case Expire => OfTransition(C.Reject(s))
    case Applied(d, code, dacEpoch, exact) => OfTransition(C.Confirm(s, d, code, dacEpoch, exact))
    case Respond(freshExact) => Result(C.Complete(s, freshExact), s.responsePending && freshExact, None)
    case MetadataLost => Result(EnterHold(s), true, None)
    case MetadataFresh(epoch, ordinal) => OfTransition(C.RequalifyMetadata(s, epoch, ordinal))
    case PolicyActivated => OfTransition(C.Activate(s))
    case SetupBound(ticks) => Result(s, false, None)
  }

  // ---- gap with zero -----------------------------------------------------------------------

  /** What the host demands before it looks at the measurement. */
  predicate HostMeasures(s: State, o: Observation) {
    && s.failReason == None && GoodClock(o) && ValidFrontier(o) && s.pending == None && !s.responsePending
    && o.metadataQualified && (s.metadataHold ==> s.metadataRequalified)
    && o.appliedCode == s.appliedCode && o.dacEpoch == s.dacEpoch
    && HostQualified(s, o).failReason == None && o.authorityValid && o.settled
    && HostGated(s, o).0.failReason == None && WindowOnlyHold(HostGated(s, o).1)
  }

  function HostQualified(s: State, o: Observation): State {
    IdentityChange(Observed(s, o), o)
  }

  function HostGated(s: State, o: Observation): (State, Option<Reason>) {
    AdvanceRequalification(HostQualified(s, o), o)
  }

  /** A maintenance observation that leaves a gap after the last window. */
  predicate LeavesGap(s: State, o: Observation) {
    && s.persistence.lastClosing.Some?
    && AtOrAfter(o.opening, s.persistence.lastClosing.value)
    && Modular(o.opening - s.persistence.lastClosing.value) > 0
  }

  predicate MaintenancePath(s: State, o: Observation) {
    o.phaseValid && o.tightInside && !OrdinaryDelta(s, o, true).1.phaseMaterial
  }

  predicate ReachesGapWithZero(s: State, o: Observation) {
    HostMeasures(s, o) && MaintenancePath(HostGated(s, o).0, o) && LeavesGap(HostGated(s, o).0, o) && CentreSign(o) == 0
  }

  lemma GapInMaintenance(w: Width, s: State, o: Observation, hold: Option<Reason>, projection: Projection)
    requires s.failReason == None && WindowOnlyHold(hold)
    ensures GapWithZero(MaintenanceDecide(w, s, o, hold, projection)) <==> LeavesGap(s, o) && CentreSign(o) == 0
  {
    hide MaintenanceWindow, GapWindow, CentreSign, AtOrAfter;
    WindowNeverGap(w, s, o, hold, projection);
    GapWindowSign(s, o);
  }

  lemma DirectNeverGap(w: Width, s: State, o: Observation, hold: Option<Reason>)
    requires WindowOnlyHold(hold) && !MaintenancePath(s, o)
    ensures !GapWithZero(ControlDecide(w, s, o, hold))
  {
    hide LimitedDelta, CombinedDemand, FrequencyDemand, RepeatedAlternation, CadenceStatus, LowEfficiency,
      MaintenanceDecide, Reset, DropPhaseDebt;
  }

  lemma GapInControl(w: Width, s: State, o: Observation, hold: Option<Reason>)
    requires s.failReason == None && WindowOnlyHold(hold)
    ensures GapWithZero(ControlDecide(w, s, o, hold))
            <==> MaintenancePath(s, o) && LeavesGap(s, o) && CentreSign(o) == 0
  {
    hide OrdinaryDelta, MaintenanceDecide, OrdinaryRequest, Reset, DropPhaseDebt, LeavesGap, CentreSign, GapWithZero;
    if MaintenancePath(s, o) {
      GapInMaintenance(w, s, o, hold, OrdinaryDelta(s, o, true).1);
    } else {
      DirectNeverGap(w, s, o, hold);
    }
  }

  lemma AdvanceReasons(s: State, o: Observation)
    ensures AdvanceRequalification(s, o).1 != Some(SourceGapRestart)
  {
    hide IdentityOf;
  }

  /** The difference on a source gap happens exactly under its guard. */
  lemma GapIsGuarded(w: Width, s: State, o: Observation)
    ensures GapWithZero(C.Decide(w, s, o)) <==> ReachesGapWithZero(s, o)
  {
    hide IdentityChange, AdvanceRequalification, ControlDecide, Reset, EnterHold, LeavesGap, MaintenancePath,
      CentreSign, ValidFrontier;
    AdvanceReasons(HostQualified(s, o), o);
    var (r, hold) := HostGated(s, o);
    if r.failReason == None && WindowOnlyHold(hold) {
      GapInControl(w, r, o, hold);
    }
  }

  // ---- 32-bit headroom -----------------------------------------------------------------------

  /** A maintenance observation that continues the last window, or starts without one. */
  predicate Continues(s: State, o: Observation) {
    s.persistence.lastClosing.Some? ==> Modular(o.opening - s.persistence.lastClosing.value) == 0
  }

  /** The decision reports a cap. */
  predicate ShowsCap(s: State, o: Observation, hold: Option<Reason>) {
    CentreSign(o) != 0 && (hold.Some? || CadenceStatus(s, o) != Backward)
  }

  predicate ReachesCap(s: State, o: Observation) {
    var (g, hold) := HostGated(s, o);
    HostMeasures(s, o) && MaintenancePath(g, o) && Continues(g, o) && ShowsCap(g, o, hold)
  }

  /** A decision whose cap is not zero, where the codes left in the range do not fit 32 bits. */
  predicate CapOverflows(s: State, o: Observation) {
    && ReachesCap(s, o)
    && Headroom(Exact, s.policy, CentreSign(o), s.appliedCode) > 0x7FFF_FFFF
    && Cap(Exact, s, Centre(o), s.appliedCode) > 0
  }

  /** What the cap and the cadence are read from. */
  predicate SameLimits(a: State, b: State) {
    a.policy == b.policy && a.movement == b.movement && a.lastApplication == b.lastApplication
  }

  lemma LimitsDecide(a: State, b: State, o: Observation)
    requires SameLimits(a, b)
    ensures CadenceStatus(a, o) == CadenceStatus(b, o)
    ensures forall w, centre, code :: Cap(w, a, centre, code) == Cap(w, b, centre, code)
  {
    hide Headroom;
  }

  /** Whether the machines form different caps. */
  predicate CapsDiffer(s: State, o: Observation) {
    Cap(Bits32, s, Centre(o), o.appliedCode) != Cap(Exact, s, Centre(o), o.appliedCode)
  }

  lemma CapsDifferExactly(s: State, o: Observation)
    requires PolicyAccepted(s.policy) && InRange(s.policy, s.appliedCode) && o.appliedCode == s.appliedCode
    requires CentreSign(o) != 0
    ensures CapsDiffer(s, o) <==> Headroom(Exact, s.policy, CentreSign(o), s.appliedCode) > 0x7FFF_FFFF
                                  && Cap(Exact, s, Centre(o), s.appliedCode) > 0
  {
    hide Headroom;
    CapIsExactOrNone(s, Centre(o), s.appliedCode);
    HeadroomSign(s.policy, CentreSign(o), Centre(o), s.appliedCode);
  }

  lemma HeadroomSign(p: Policy, a: int, b: int, code: int)
    requires a > 0 <==> b > 0
    ensures Headroom(Exact, p, a, code) == Headroom(Exact, p, b, code)
  {
  }

  /** A request or hold of a maintenance proposal always shows the cap it was formed with. */
  lemma RequestShowsCap(s: State, o: Observation, p: Proposal, p': Proposal)
    requires CadenceStatus(s, o) != Backward && p.cap != p'.cap
    ensures RequestOrHold(s, o, p) != RequestOrHold(s, o, p')
  {
    hide RepeatedAlternation, LowEfficiency, CadenceStatus;
    ShownCap(s, o, p);
    ShownCap(s, o, p');
  }

  lemma ShownCap(s: State, o: Observation, p: Proposal)
    requires CadenceStatus(s, o) != Backward
    ensures RequestOrHold(s, o, p).decision.cap == p.cap
  {
    hide RepeatedAlternation, LowEfficiency, CadenceStatus;
  }

  lemma WindowWidths(s: State, o: Observation, hold: Option<Reason>, projection: Projection)
    ensures MaintenanceWindow(Bits32, s, o, hold, projection) == MaintenanceWindow(Exact, s, o, hold, projection)
            <==> !(ShowsCap(s, o, hold) && CapsDiffer(s, o))
  {
    hide Cap, CentreSign, Persisted, RequestOrHold, CadenceStatus, MaintenanceProposal, Centre;
    var r := Persisted(s, o, CentreSign(o));
    PersistedLimits(s, o, CentreSign(o));
    LimitsDecide(s, r, o);
    var cap, cap' := Cap(Bits32, r, Centre(o), o.appliedCode), Cap(Exact, r, Centre(o), o.appliedCode);
    if cap != cap' && CadenceStatus(r, o) != Backward {
      ProposalCap(r, o, cap, projection);
      ProposalCap(r, o, cap', projection);
      RequestShowsCap(r, o, MaintenanceProposal(r, o, cap, projection), MaintenanceProposal(r, o, cap', projection));
    }
  }

  lemma ProposalCap(s: State, o: Observation, cap: int, projection: Projection)
    ensures MaintenanceProposal(s, o, cap, projection).cap == cap
  {
  }

  lemma PersistedLimits(s: State, o: Observation, sign: int)
    ensures SameLimits(s, Persisted(s, o, sign))
  {
    hide IdentityOf;
  }

  lemma ControlWidths(s: State, o: Observation, hold: Option<Reason>)
    ensures ControlDecide(Bits32, s, o, hold) == ControlDecide(Exact, s, o, hold)
            <==> !(MaintenancePath(s, o) && Continues(s, o) && ShowsCap(s, o, hold) && CapsDiffer(s, o))
  {
    hide OrdinaryDelta, MaintenanceWindow, OrdinaryRequest, Reset, DropPhaseDebt, GapRestart, ShowsCap, CapsDiffer;
    ZeroGap(s, o);
    WindowWidths(s, o, hold, OrdinaryDelta(s, o, true).1);
  }

  /** A window that opens where the last one closed neither overlaps it nor leaves a gap. */
  lemma ZeroGap(s: State, o: Observation)
    ensures s.persistence.lastClosing.Some? ==>
              Modular(o.opening - s.persistence.lastClosing.value) >= 0
              && (Modular(o.opening - s.persistence.lastClosing.value) == 0 ==>
                    AtOrAfter(o.opening, s.persistence.lastClosing.value))
  {
  }

  lemma GatedLimits(s: State, o: Observation)
    ensures SameLimits(s, HostGated(s, o).0)
  {
    hide IdentityChange, AdvanceRequalification;
    IdentityLimits(Observed(s, o), o);
    AdvanceLimits(HostQualified(s, o), o);
  }

  lemma IdentityLimits(s: State, o: Observation)
    ensures SameLimits(s, IdentityChange(s, o))
  {
    hide IdentityOf;
  }

  lemma AdvanceLimits(s: State, o: Observation)
    ensures SameLimits(s, AdvanceRequalification(s, o).0)
  {
    hide IdentityOf, AtOrAfter;
  }

  /** The widths of the machines matter exactly where the headroom of a positive cap overflows. */
  lemma WidthsAgreeExactly(s: State, o: Observation)
    requires Holds(s)
    ensures C.Decide(Bits32, s, o) == C.Decide(Exact, s, o) <==> !CapOverflows(s, o)
  {
    hide IdentityChange, AdvanceRequalification, ControlDecide, Reset, EnterHold, MaintenancePath, CentreSign,
      CadenceStatus, ValidFrontier, Continues, Holds, Cap, Headroom, Centre, FailStatic;
    var (g, hold) := HostGated(s, o);
    ControlWidths(g, o, hold);
    GatedLimits(s, o);
    LimitsDecide(s, g, o);
    HoldsRange(s);
    if CentreSign(o) != 0 && o.appliedCode == s.appliedCode {
      CapsDifferExactly(s, o);
    }
  }

  lemma HoldsRange(s: State)
    requires Holds(s)
    ensures PolicyAccepted(s.policy) && InRange(s.policy, s.appliedCode)
  {
  }

  lemma GapBeforeCap(s: State, o: Observation)
    ensures !(ReachesGapWithZero(s, o) && CapOverflows(s, o))
  {
    hide HostMeasures, MaintenancePath, CentreSign, Cap, Headroom, Centre;
  }

  /** Where the code range is at most 2^31 - 1 codes wide the machines never differ. */
  lemma NarrowRangesAgree(s: State, o: Observation)
    requires Holds(s) && s.policy.maximumCode - s.policy.minimumCode <= 0x7FFF_FFFF
    ensures C.Decide(Bits32, s, o) == C.Decide(Exact, s, o)
  {
    hide Holds, C.Decide, ReachesCap, Cap;
    HoldsRange(s);
    WidthsAgreeExactly(s, o);
  }

  // ---- failing reasons -----------------------------------------------------------------------

  /** The ways a live engine with an acceptable frontier can fail. */
  predicate LiveFailure(reason: Option<Reason>) {
    reason in {None, Some(ContradictoryApplication), Some(RequalificationOrdinalMissing), Some(TimestampBackward),
               Some(LowEfficiencyPath)}
  }

  lemma RequestFailure(s: State, o: Observation, p: Proposal)
    requires LiveFailure(s.failReason)
    ensures LiveFailure(RequestOrHold(s, o, p).state.failReason)
    ensures RequestOrHold(s, o, p).state.decisionSequence == s.decisionSequence
  {
    hide CadenceStatus, LowEfficiency, RepeatedAlternation;
  }

  /** The fields a failing reason and a sequence are read from. */
  predicate SameIdentity(a: State, b: State) {
    a.failReason == b.failReason && a.decisionSequence == b.decisionSequence
  }

  lemma ResetIdentity(s: State, o: Observation, preserveDebt: bool, sign: int)
    ensures SameIdentity(s, Reset(s, preserveDebt)) && SameIdentity(s, DropPhaseDebt(s))
    ensures SameIdentity(s, Persisted(s, o, sign)) && SameIdentity(s, GapWindow(s, o))
  {
    hide CentreSign, IdentityOf;
  }

  lemma MaintenanceFailure(w: Width, s: State, o: Observation, hold: Option<Reason>, projection: Projection)
    requires LiveFailure(s.failReason)
    ensures LiveFailure(MaintenanceDecide(w, s, o, hold, projection).state.failReason)
    ensures MaintenanceDecide(w, s, o, hold, projection).state.decisionSequence == s.decisionSequence
  {
    hide RequestOrHold, CadenceStatus, Cap, MaintenanceProposal, CentreSign, AtOrAfter, LiveFailure, Persisted,
      GapWindow, Reset;
    var r := Persisted(s, o, CentreSign(o));
    ResetIdentity(s, o, false, CentreSign(o));
    RequestFailure(r, o, MaintenanceProposal(r, o, Cap(w, r, Centre(o), o.appliedCode), projection));
    FailureValues();
  }

  lemma FailureValues()
    ensures LiveFailure(None) && LiveFailure(Some(ContradictoryApplication)) && LiveFailure(Some(TimestampBackward))
    ensures LiveFailure(Some(RequalificationOrdinalMissing)) && !LiveFailure(Some(InvalidFrontier))
  {
  }

  lemma ControlFailure(w: Width, s: State, o: Observation, hold: Option<Reason>)
    requires LiveFailure(s.failReason)
    ensures LiveFailure(ControlDecide(w, s, o, hold).state.failReason)
    ensures ControlDecide(w, s, o, hold).state.decisionSequence == s.decisionSequence
  {
    hide RequestOrHold, MaintenanceDecide, LiveFailure, LimitedDelta, CombinedDemand, FrequencyDemand, Reset,
      DropPhaseDebt;
    var r := DropPhaseDebt(s);
    ResetIdentity(s, o, false, 0);
    ResetIdentity(r, o, true, 0);
    var degraded := OrdinaryDelta(r, o, false);
    var r' := Reset(r, true);
    RequestFailure(r', o, Proposal(degraded.0, Degraded, r'.policy.maximumStep, 0, 0, 0, 0, false, false, degraded.1));
    var direct := OrdinaryDelta(s, o, true);
    var path := DirectPath(o);
    var s' := Reset(s, false);
    RequestFailure(s', o,
                   Proposal(direct.0, path, s'.policy.maximumStep, 0, 0, PhaseCentre(o), PhaseCentre(o), true, false,
                     direct.1));
    MaintenanceFailure(w, s, o, hold, direct.1);
  }

  lemma QualifiedFailure(w: Width, s: State, o: Observation)
    requires s.failReason == None
    ensures LiveFailure(QualifiedDecide(w, s, o).state.failReason)
    ensures QualifiedDecide(w, s, o).state.decisionSequence == s.decisionSequence
  {
    hide ControlDecide, LiveFailure, IdentityChange, AdvanceRequalification, Reset;
    FailureValues();
    var r := IdentityChange(s, o);
    IdentityFailure(s, o);
    ResetIdentity(r, o, true, 0);
    if r.failReason == None {
      AdvanceFailure(r, o);
    }
    var (r', hold) := AdvanceRequalification(r, o);
    ControlFailureIf(w, r', o, hold);
  }

  lemma IdentityFailure(s: State, o: Observation)
    requires s.failReason == None
    ensures IdentityChange(s, o).failReason in {None, Some(ContradictoryApplication)}
    ensures IdentityChange(s, o).decisionSequence == s.decisionSequence
  {
    hide IdentityOf, Reset, DropPhaseDebt;
    ResetIdentity(s, o, false, 0);
  }

  lemma AdvanceFailure(s: State, o: Observation)
    requires s.failReason == None
    ensures AdvanceRequalification(s, o).0.failReason in {None, Some(RequalificationOrdinalMissing)}
    ensures AdvanceRequalification(s, o).0.decisionSequence == s.decisionSequence
  {
    hide IdentityOf, AtOrAfter;
  }

  lemma FrontierFailure(w: Width, s: State, o: Observation)
    requires s.failReason == None
    ensures LiveFailure(FrontierDecide(w, s, o).state.failReason)
    ensures FrontierDecide(w, s, o).state.decisionSequence == s.decisionSequence
  {
    hide QualifiedDecide, LiveFailure;
    FailureValues();
    QualifiedFailure(w, s, o);
  }

  lemma ControlFailureIf(w: Width, s: State, o: Observation, hold: Option<Reason>)
    ensures LiveFailure(s.failReason) ==>
              LiveFailure(ControlDecide(w, s, o, hold).state.failReason)
              && ControlDecide(w, s, o, hold).state.decisionSequence == s.decisionSequence
  {
    hide ControlDecide, LiveFailure;
    if LiveFailure(s.failReason) {
      ControlFailure(w, s, o, hold);
    }
  }

  // ---- the differences -----------------------------------------------------------------------

  predicate DecisionDiffers(s: State, o: Observation) {
    || s.decisionSequence == MAXIMUM_U64
    || (ReachesSpanCheck(s, o) && ValidFrontier(o) && !ExactSpan(o))
    || ReachesGapWithZero(s, o)
    || CapOverflows(s, o)
  }

  /** A returned decision equal on the snapshot but not elsewhere, or an epoch that wraps. */
  predicate ConfirmationDiffers(s: State, d: Decision, code: int, dacEpoch: int, exact: bool) {
    && s.pending.Some? && d.delta != 0 && MatchesSnapshot(s.pending.value.decision, d)
    && (s.pending.value.decision != d || (exact && code == d.code && s.dacEpoch == MAXIMUM_U64 && dacEpoch == 0))
  }

  predicate RequalificationDiffers(s: State, epoch: int, ordinal: int) {
    (s.pending.Some? || s.responsePending) && s.metadataHold && epoch > 0 && 0 <= ordinal <= MAXIMUM_U32
  }

  predicate SetupDiffers(s: State, ticks: int) {
    ticks != 0 && s.lastApplication == None && s.pending == None && !s.responsePending && s.applicationCount == 0
    && s.dacEpoch != 0
  }

  /** The calls on which firmware and host part. */
  predicate Differs(s: State, e: Event) {
    match e
    case Observe(o) => DecisionDiffers(s, o)
    case Applied(d, code, dacEpoch, exact) => ConfirmationDiffers(s, d, code, dacEpoch, exact)
    case MetadataLost => s.pending.Some?
    case MetadataFresh(epoch, ordinal) => RequalificationDiffers(s, epoch, ordinal)
    case SetupBound(ticks) => SetupDiffers(s, ticks)
    case _ => false
  }

  lemma HostSequence(w: Width, s: State, o: Observation)
    ensures C.Decide(w, s, o).state.decisionSequence == s.decisionSequence + 1
  {
    hide FrontierDecide, ValidFrontier;
    if s.failReason == None {
      FrontierFailure(w, Observed(s, o), o);
    }
  }

  lemma DecisionsAgreeExactly(s: State, o: Observation)
    requires Holds(s) && Typed(o)
    ensures F.Decide(s, o) == C.Decide(Exact, s, o) <==> !DecisionDiffers(s, o)
  {
    hide ReachesGapWithZero, CapOverflows, C.Decide, Typed, Holds;
    if ReachesSpanCheck(s, o) {
      HostFrontier(Exact, s, o);
      HostFrontier(Bits32, s, o);
    }
    GapIsGuarded(Bits32, s, o);
    GapIsGuarded(Exact, s, o);
    WidthsAgreeExactly(s, o);
    GapBeforeCap(s, o);
    HostSequence(Exact, s, o);
    ExactIsValid(o);
  }

  lemma ExactIsValid(o: Observation)
    ensures ExactSpan(o) ==> ValidFrontier(o)
  {
  }

  /** The host fails a live engine on its frontier exactly when that frontier is invalid. */
  lemma HostFrontier(w: Width, s: State, o: Observation)
    requires ReachesSpanCheck(s, o)
    ensures ValidFrontier(o) ==> C.Decide(w, s, o).state.failReason != Some(InvalidFrontier)
    ensures !ValidFrontier(o) ==> C.Decide(w, s, o) == Fail(Observed(s, o), InvalidFrontier)
  {
    hide FrontierDecide, LiveFailure;
    FailureValues();
    FrontierFailure(w, Observed(s, o), o);
  }

  lemma ConfirmationsAgreeExactly(s: State, d: Decision, code: int, dacEpoch: int, exact: bool)
    requires Holds(s) && InU64(dacEpoch)
    ensures F.Confirm(s, d, code, dacEpoch, exact) == C.Confirm(s, d, code, dacEpoch, exact)
            <==> !ConfirmationDiffers(s, d, code, dacEpoch, exact)
  {
    hide Holds, Commit;
    HoldsOutstanding(s);
    if s.pending.Some? {
      CommitLeavesFailure(s, code, dacEpoch);
    }
  }

  lemma HoldsOutstanding(s: State)
    requires Holds(s)
    ensures s.pending.Some? ==> !s.responsePending && s.failReason == None
    ensures InU64(s.dacEpoch)
  {
  }

  lemma CommitLeavesFailure(s: State, code: int, dacEpoch: int)
    requires s.pending.Some?
    ensures Commit(s, s.pending.value, code, dacEpoch).failReason == s.failReason
  {
    hide ResidualDebt;
  }

  /** The two controllers make the same transition exactly when the call is not one of the differences. */
  lemma StepsAgreeExactly(s: State, e: Event)
    requires Holds(s) && EventTyped(e) && (e.Applied? ==> InU64(e.dacEpoch))
    ensures F.Step(s, e) == HostStep(s, e) <==> !Differs(s, e)
  {
    hide Holds, F.Decide, C.Decide, F.Confirm, C.Confirm, DecisionDiffers, ConfirmationDiffers, EnterHold, Requalify,
      Typed;
    match e
    case Observe(o) => DecisionsAgreeExactly(s, o);
    case Applied(d, code, dacEpoch, exact) => ConfirmationsAgreeExactly(s, d, code, dacEpoch, exact);
    case _ =>
  }
}
