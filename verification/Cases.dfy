/** The firmware's decision as one list of cases, each an outcome of the host's functions. */
module Cases {
  import opened Words
  import opened Controller
  import opened Firmware
  import opened Invariant
  import C = Controller
  import F = Firmware

  /** The firmware's modular order, which also refuses ordinals wider than 32 bits. */
  predicate OrdinalAtOrAfter(candidate: int, reference: int) {
    candidate <= MAXIMUM_U32 && reference <= MAXIMUM_U32 && (candidate - reference) % WORD32 < 0x8000_0000
  }

  /** The firmware's three ways into maintenance are the host's. */
  lemma MaintenanceCases(s: State, o: Observation, hold: Option<Reason>, projection: Projection)
    requires Deciding(s) && Admitted(o) && WindowOnlyHold(hold)
    ensures var last := s.persistence.lastClosing;
            Settle(MaintenanceDecide(Bits32, s, o, hold, projection)) ==
            if last.Some? && !OrdinalAtOrAfter(o.opening, last.value)
            then HoldProjected(s, SourceOverlapHold, 0, projection)
            else if last.Some? && o.opening != last.value then Settle(GapRestart(s, o, projection))
            else MaintenanceWindow(Bits32, s, o, hold, projection)
  {
    hide MaintenanceWindow, GapRestart, Holds, Deciding;
    CountBounds(s);
    WindowNeverGap(Bits32, s, o, hold, projection);
  }

  lemma GapOutcome(s: State, o: Observation, projection: Projection)
    requires s.failReason == None
    ensures Settle(GapRestart(s, o, projection))
            == HoldProjected(GapState(s, o), if CentreSign(o) == 0 then ZeroContaining else SourceGapRestart, 0,
                             projection)
  {
    hide CentreSign, GapWindow;
    GapWindowSign(s, o);
  }

  lemma GapStateIs(s: State, o: Observation)
    ensures var sign := CentreSign(o);
            var r := if sign == 0 || (s.persistence.count != 0 && sign != s.persistence.sign)
                     then Reset(s, false) else s;
            GapState(s, o) == r.(persistence := if sign == 0 then NO_PERSISTENCE
                                                else Persistence(sign, 1, Some(IdentityOf(o)), Some(o.closing)))
  {
    hide CentreSign, IdentityOf;
  }

  lemma WindowOfZero(s: State, o: Observation, hold: Option<Reason>, projection: Projection)
    requires CentreSign(o) == 0
    ensures MaintenanceWindow(Bits32, s, o, hold, projection)
            == HoldProjected(Reset(s, false), ZeroContaining, 0, projection)
  {
  }

  /** Settling touches only maintenance. */
  lemma ControlCases(s: State, o: Observation, hold: Option<Reason>)
    requires WindowOnlyHold(hold)
    ensures var (delta, projection) := C.OrdinaryDelta(s, o, true);
            Settle(ControlDecide(Bits32, s, o, hold)) ==
            if o.phaseValid && o.tightInside && !projection.phaseMaterial
            then Settle(MaintenanceDecide(Bits32, s, o, hold, projection)) else ControlDecide(Bits32, s, o, hold)
  {
    hide LimitedDelta, CombinedDemand, FrequencyDemand, RepeatedAlternation, CadenceStatus, LowEfficiency, Settle,
      MaintenanceDecide;
    var (delta, projection) := C.OrdinaryDelta(s, o, true);
    if !(o.phaseValid && o.tightInside && !projection.phaseMaterial) {
      SettleOther(ControlDecide(Bits32, s, o, hold));
    }
  }

  lemma SettleOther(out: Outcome)
    requires out.decision.reason != SourceGapRestart || out.state.failReason.Some?
    ensures Settle(out) == out
  {
  }

  lemma QualifiedCases(s: State, o: Observation)
    requires Deciding(s) && Admitted(o)
    ensures var r := IdentityChange(s, o);
            var (r', hold) := AdvanceRequalification(r, o);
            Settle(QualifiedDecide(Bits32, s, o)) ==
            if r.failReason.Some? then Hold(r, r.failReason.value)
            else if !o.authorityValid then Hold(Reset(r, true), AuthorityHold)
            else if !o.settled then Hold(Reset(r, true), SettlingHold)
            else if hold in {Some(RequalificationEpochHold), Some(RequalificationOrdinalHold),
                             Some(RequalificationOverlapHold)}
            then Hold(r', hold.value)
            else Settle(ControlDecide(Bits32, r', o, hold))
    ensures var r := IdentityChange(s, o);
            r.failReason == None ==>
            var hold := AdvanceRequalification(r, o).1;
            WindowOnlyHold(hold) || hold in {Some(RequalificationEpochHold), Some(RequalificationOrdinalHold),
                                             Some(RequalificationOverlapHold)}
  {
    hide ControlDecide, Holds, Deciding, Reset, IdentityChange, AdvanceRequalification, Settle;
    IdentityChangeKeeps(s, o);
    var r := IdentityChange(s, o);
    IdentityChangeReason(s, o);
    if r.failReason == None {
      AdvanceKeeps(r, o);
      AdvanceHolds(r, o);
      DecidingHolds(AdvanceRequalification(r, o).0);
    }
    SettleOther(Hold(Reset(r, true), AuthorityHold));
    SettleOther(Hold(Reset(r, true), SettlingHold));
    if r.failReason.Some? {
      SettleOther(Hold(r, r.failReason.value));
    }
    var (r', hold) := AdvanceRequalification(r, o);
    if hold.Some? && hold.value != SourceGapRestart {
      SettleOther(Hold(r', hold.value));
    }
  }

  lemma IdentityChangeReason(s: State, o: Observation)
    requires Deciding(s)
    ensures IdentityChange(s, o).failReason in {None, Some(ContradictoryApplication)}
  {
  }

  lemma AdvanceHolds(s: State, o: Observation)
    requires Deciding(s)
    ensures var hold := AdvanceRequalification(s, o).1;
            WindowOnlyHold(hold) || hold in {Some(RequalificationEpochHold), Some(RequalificationOrdinalHold),
                                             Some(RequalificationOverlapHold)}
  {
  }

  lemma FrontierCases(s: State, o: Observation)
    ensures Settle(FrontierDecide(Bits32, s, o)) ==
            if s.pending == None && !s.responsePending && o.metadataQualified
               && (s.metadataHold ==> s.metadataRequalified)
               && o.appliedCode == s.appliedCode && o.dacEpoch == s.dacEpoch
            then Settle(QualifiedDecide(Bits32, s, o)) else FrontierDecide(Bits32, s, o)
  {
    hide QualifiedDecide, EnterHold, FailStatic;
  }

  lemma DecideCases(s: State, o: Observation)
    requires Holds(s)
    ensures var r := Observed(s, o);
            F.Decide(s, o) ==
            if s.decisionSequence == MAXIMUM_U64 then Fail(s, DecisionIdentityExhausted)
            else if s.failReason.Some? then Hold(r, s.failReason.value)
            else if !GoodClock(o) then Fail(r, TimestampMismatch)
            else if !ExactSpan(o) then Fail(r, InvalidFrontier)
            else Settle(FrontierDecide(Bits32, r, o))
  {
    hide FrontierDecide, FailStatic, Holds;
  }

  lemma PolicyOf(s: State)
    requires Deciding(s)
    ensures PolicyAccepted(s.policy) && InRange(s.policy, s.appliedCode) && InU32(s.movement)
  {
  }

  lemma DegradedDemand(o: Observation)
    ensures CombinedDemand(o, false) == FrequencyDemand(o)
  {
  }

  lemma ObservedFrame(s: State, o: Observation)
    ensures Observed(s, o).failReason == s.failReason && ClockSet(Observed(s, o), o)
    ensures Observed(s, o).persistence == s.persistence && Observed(s, o).requalification == s.requalification
    ensures Observed(s, o).metadataHold == s.metadataHold && Observed(s, o).metadataRequalified == s.metadataRequalified
  {
  }
}
