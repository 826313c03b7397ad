/**
 Concrete runs: a maintenance movement is really proposed and applied, and the source gap
 on which firmware and host differ is really reached.
 */
module Witness {
  import opened Words
  import opened Rounding
  import opened Controller
  import opened Firmware
  import opened Invariant
  import opened Agreement
  import opened Runs
  import C = Controller
  import F = Firmware

  const POLICY: Policy := Policy(21, 0, 65_535, 1_800, 0, 0)
  const CODE: int := 32_768
  const START: State := InitialState(POLICY, CODE, 1)

  /** The oscillator is one edge slow over the window that opens here. */
  function Slow(opening: int, edgeError: int): Observation {
    Observation(0, 0, 1, 1, opening, opening + 600, 1, CODE, edgeError, true, 1, 0, 1, true, true, true, true, true)
  }

  const PROJECTED: Projection := Projection(5, false, false, false, false, false, false)

  lemma StartStarts()
    ensures Start(START)
  {
    assert PolicyAccepted(POLICY) && Invariant.InRange(POLICY, CODE) && InU64(1);
  }

  /** One edge in 600 seconds asks for five codes; the phase adds nothing. */
  lemma OneEdgeDemand(s: State, o: Observation)
    requires s.policy.maximumStep == 21 && s.policy.minimumCode <= s.appliedCode <= s.policy.maximumCode - 5
    requires o.edgeError == -1 && o.phaseCycles == 0
    ensures OrdinaryDelta(s, o, true) == (5, PROJECTED)
  {
    assert FrequencyDemand(o) == GAIN / 600.0;
    assert CombinedDemand(o, true) == GAIN / 600.0;
    assert (GAIN / 600.0 + 0.5).Floor == 5;
  }

  const RAW: int := 4_807_504_602_373

  lemma OneEdgeMaintenance()
    ensures CentreToPicocodes(36) == RAW && RoundRatio(RAW, PICO) == 5
  {
  }

  const WINDOW: Persistence := Persistence(1, 1, Some(IdentityOf(Slow(0, -1))), Some(600))
  const AFTER_FIRST: State := START.(decisionSequence := 1, persistence := WINDOW)

  /** The first slow window only starts a history. */
  lemma FirstWindow()
    ensures F.Decide(START, Slow(0, -1)).state == AFTER_FIRST
    ensures F.Decide(START, Slow(0, -1)).decision.delta == 0
  {
    hide OrdinaryDelta;
    OneEdgeDemand(Observed(START, Slow(0, -1)), Slow(0, -1));
  }

  const SECOND: Observation := Slow(600, -1)
  const SECOND_STATE: State := Observed(AFTER_FIRST, SECOND)

  /** The second window extends the first and reaches maintenance control. */
  lemma SecondReaches()
    ensures F.Decide(AFTER_FIRST, SECOND) == Settle(MaintenanceWindow(Bits32, SECOND_STATE, SECOND, None, PROJECTED))
  {
    hide OrdinaryDelta, MaintenanceWindow, Settle;
    OneEdgeDemand(SECOND_STATE, SECOND);
  }

  const EXTENDED: State := SECOND_STATE.(persistence := WINDOW.(count := 2, lastClosing := Some(1_200)))
  const PROPOSED: Proposal := Proposal(4, Maintenance, 4, RAW, RAW, 0, 0, true, true, PROJECTED)

  lemma SecondExtends()
    ensures CentreSign(SECOND) == 1 && Persisted(SECOND_STATE, SECOND, 1) == EXTENDED
    ensures Cap(Bits32, EXTENDED, Centre(SECOND), CODE) == 4
    ensures MaintenanceProposal(EXTENDED, SECOND, 4, PROJECTED) == PROPOSED
  {
    hide CentreToPicocodes, RoundRatio;
    OneEdgeMaintenance();
  }

  /** It asks for four of the five codes: the plant must not cross zero. */
  lemma SecondWindow()
    ensures var out := F.Decide(AFTER_FIRST, SECOND);
            && out.decision.maintenance && out.decision.delta == 4 && out.decision.code == CODE + 4
            && out.state == EXTENDED.(pending := Some(Pending(out.decision, Stamp(0, 0))))
  {
    hide F.Decide, OrdinaryDelta, Persisted, Cap, CentreSign, MaintenanceProposal, RepeatedAlternation;
    SecondReaches();
    SecondExtends();
  }

  /** A run that proposes and applies a maintenance movement. */
  lemma MaintenanceHappens()
    ensures var d := F.Decide(AFTER_FIRST, SECOND).decision;
            var run := [Observe(Slow(0, -1)), Observe(SECOND), Applied(d, CODE + 4, 2, true)];
            && Start(START) && TypedRun(run) && RequestsMaintenance(START, run, 1) && Applies(START, run, 2)
            && After(START, run, 3).appliedCode == CODE + 4
  {
    hide F.Decide;
    StartStarts();
    FirstWindow();
    SecondWindow();
    var d := F.Decide(AFTER_FIRST, SECOND).decision;
    var run := [Observe(Slow(0, -1)), Observe(SECOND), Applied(d, CODE + 4, 2, true)];
    assert After(START, run, 1) == AFTER_FIRST;
    assert After(START, run, 2) == F.Decide(AFTER_FIRST, SECOND).state;
  }

  const GAP: Observation := Slow(1_200, 0)

  /** One window later a gap with a zero-containing interval: the host keeps a window, the firmware does not. */
  lemma GapDifferenceHappens()
    ensures Differs(AFTER_FIRST, Observe(GAP))
    ensures C.Decide(Exact, AFTER_FIRST, GAP).state.persistence.count == 1
    ensures F.Decide(AFTER_FIRST, GAP).state.persistence.count == 0
  {
    hide C.Decide, OrdinaryDelta, GapRestart, ReachesGapWithZero, CapOverflows;
    GapReaches(Exact);
    GapReaches(Bits32);
    GapRestarts();
    GapIsGuarded(Exact, AFTER_FIRST, GAP);
  }

  lemma GapReaches(w: Width)
    ensures C.Decide(w, AFTER_FIRST, GAP)
            == GapRestart(Observed(AFTER_FIRST, GAP), GAP, OrdinaryDelta(Observed(AFTER_FIRST, GAP), GAP, true).1)
  {
    hide OrdinaryDelta, GapRestart;
    NoEdgeDemand(Observed(AFTER_FIRST, GAP));
  }

  lemma GapRestarts()
    ensures forall p :: GapWithZero(GapRestart(Observed(AFTER_FIRST, GAP), GAP, p))
                        && GapRestart(Observed(AFTER_FIRST, GAP), GAP, p).state.persistence.count == 1
  {
    hide GapWindow;
    ZeroWindow();
  }

  lemma ZeroWindow()
    ensures var r := GapWindow(Observed(AFTER_FIRST, GAP), GAP);
            r.failReason == None && r.persistence.sign == 0 && r.persistence.count == 1
  {
    hide IdentityOf, CentreSign;
    ZeroSign(GAP);
  }

  lemma ZeroSign(o: Observation)
    requires o.edgeError == 0 && o.phaseCycles == 0
    ensures CentreSign(o) == 0
  {
  }

  lemma NoEdgeDemand(s: State)
    requires s.policy == POLICY && s.appliedCode == CODE
    ensures !OrdinaryDelta(s, GAP, true).1.phaseMaterial
  {
    assert FrequencyDemand(GAP) == CombinedDemand(GAP, true);
  }

  // ---- the widest policy -----------------------------------------------------------------

  const WIDE: Policy := Policy(21, -0x8000_0000, 0x7FFF_FFFF, 1_800, 0, 0)
  const WIDE_START: State := InitialState(WIDE, -2, 1)
  const WIDE_SLOW: Observation := Slow(0, -1).(appliedCode := -2)

  /** The widest accepted policy: the codes above the setup code do not fit 32 bits, so the firmware sees none. */
  lemma HeadroomDifferenceHappens()
    ensures Start(WIDE_START) && Typed(WIDE_SLOW)
    ensures Differs(WIDE_START, Observe(WIDE_SLOW))
    ensures C.Decide(Exact, WIDE_START, WIDE_SLOW).decision.cap == 4
    ensures F.Decide(WIDE_START, WIDE_SLOW).decision.cap == 0
  {
    hide C.Decide, F.Decide, Cap, Differs, Centre, Typed;
    WideStarts();
    WideCaps();
    WideDecides(Exact);
    WideAnswers();
    WideDiffers();
  }

  lemma WideAnswers()
    ensures F.Decide(WIDE_START, WIDE_SLOW).decision.cap == 0
  {
    hide C.Decide, Cap, Centre;
    WideCaps();
    WideDecides(Bits32);
  }

  lemma WideDiffers()
    ensures Differs(WIDE_START, Observe(WIDE_SLOW))
  {
    hide C.Decide, CapOverflows, ReachesGapWithZero, Cap, Centre, Holds, Start, Typed;
    WideStarts();
    WideCaps();
    WideDecides(Exact);
    WideDecides(Bits32);
    StartHolds(WIDE_START);
    WidthsAgreeExactly(WIDE_START, WIDE_SLOW);
  }

  lemma WideStarts()
    ensures Start(WIDE_START) && Typed(WIDE_SLOW)
  {
    assert PolicyAccepted(WIDE) && Invariant.InRange(WIDE, -2) && InU64(1);
  }

  lemma WideCaps()
    ensures CentreSign(WIDE_SLOW) == 1
    ensures forall s: State :: s.policy == WIDE ==>
              Cap(Exact, s, Centre(WIDE_SLOW), -2) == 4 && Cap(Bits32, s, Centre(WIDE_SLOW), -2) == 0
  {
  }

  lemma WideDecides(w: Width)
    ensures C.Decide(w, WIDE_START, WIDE_SLOW).decision.cap
            == Cap(w, Observed(WIDE_START, WIDE_SLOW), Centre(WIDE_SLOW), -2)
    ensures C.Decide(w, WIDE_START, WIDE_SLOW).decision.reason == FirstIntervalHold
  {
    hide OrdinaryDelta, Cap, CentreSign, Centre;
    WideCaps();
    OneEdgeDemand(Observed(WIDE_START, WIDE_SLOW), WIDE_SLOW);
    LimitsDecide(Observed(WIDE_START, WIDE_SLOW), Persisted(Observed(WIDE_START, WIDE_SLOW), WIDE_SLOW, 1), WIDE_SLOW);
  }
}
