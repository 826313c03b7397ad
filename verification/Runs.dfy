/**
 Whole runs of the engine from initialisation: what every reachable state satisfies, what
 the applications of a run add up to, and what must have happened before a request.
 */
module Runs {
  import opened Words
  import opened Rounding
  import opened Controller
  import opened Firmware
  import opened Invariant
  import opened Safety
  import opened Windows
  import opened Laws
  import opened Agreement
  import F = Firmware

  /** The state after the first `n` calls. */
  function After(s0: State, run: seq<Event>, n: nat): State
    requires n <= |run|
  {
    if n == 0 then s0 else F.Step(After(s0, run, n - 1), run[n - 1]).state
  }

  /** What call `n` answers. */
  function Answer(s0: State, run: seq<Event>, n: nat): Result
    requires n < |run|
  {
    F.Step(After(s0, run, n), run[n])
  }

  ghost predicate TypedRun(run: seq<Event>) {
    forall i :: 0 <= i < |run| ==> EventTyped(run[i])
  }

  ghost predicate Start(s0: State) {
    exists policy, code, dacEpoch :: PolicyAccepted(policy) && InRange(policy, code) && InU64(dacEpoch)
                                  && s0 == InitialState(policy, code, dacEpoch)
  }

  lemma StartHolds(s0: State)
    requires Start(s0)
    ensures Holds(s0) && s0.persistence.count == 0 && s0.lastApplication == None
    ensures s0.applicationCount == 0 && s0.movement == 0
  {
    hide Holds;
    var policy, code, dacEpoch :| PolicyAccepted(policy) && InRange(policy, code) && InU64(dacEpoch)
                                  && s0 == InitialState(policy, code, dacEpoch);
    InitialHolds(policy, code, dacEpoch);
  }

  /** Every reachable state keeps the invariant, whatever the calls and however many. */
  lemma {:induction false} ReachableHolds(s0: State, run: seq<Event>, n: nat)
    requires Holds(s0) && TypedRun(run) && n <= |run|
    ensures Holds(After(s0, run, n))
  {
    hide Holds, F.Step;
    if n > 0 {
      ReachableHolds(s0, run, n - 1);
      EventOf(run, n - 1);
      StepKeeps(After(s0, run, n - 1), run[n - 1]);
    }
  }

  lemma EventOf(run: seq<Event>, i: nat)
    requires TypedRun(run) && i < |run|
    ensures EventTyped(run[i])
  {
  }

  /** In every reachable state: one transaction at most, bounded debt of one direction, code in range, bounded path. */
  lemma ReachableIsSafe(s0: State, run: seq<Event>, n: nat)
    requires Start(s0) && TypedRun(run) && n <= |run|
    ensures var s := After(s0, run, n);
            && !(s.pending.Some? && s.responsePending)
            && !(s.debt.fll > 0 && s.debt.pll < 0) && !(s.debt.fll < 0 && s.debt.pll > 0)
            && Abs(s.debt.fll) + Abs(s.debt.pll) <= 500_000_000_000
            && InRange(s.policy, s.appliedCode)
            && (s.policy.maximumMovement != 0 ==>
                  s.movement < 42 || 4 * Abs(s.appliedCode - s.chatterOrigin) > s.movement)
            && (s.pending.Some? ==> s.pending.value.decision.committedDebt == s.debt.Total())
  {
    hide After;
    StartHolds(s0);
    ReachableHolds(s0, run, n);
  }

  // ---- applications ----------------------------------------------------------------------

  /** Call `n` commits an application. */
  predicate Applies(s0: State, run: seq<Event>, n: nat)
    requires n < |run|
  {
    run[n].Applied? && Answer(s0, run, n).ok
  }

  function Applications(s0: State, run: seq<Event>, n: nat): nat
    requires n <= |run|
  {
    if n == 0 then 0 else Applications(s0, run, n - 1) + if Applies(s0, run, n - 1) then 1 else 0
  }

  /** The codes the applications of the first `n` calls moved. */
  function Moved(s0: State, run: seq<Event>, n: nat): int
    requires n <= |run|
  {
    if n == 0 then 0
    else Moved(s0, run, n - 1) + if Applies(s0, run, n - 1) then run[n - 1].decision.delta else 0
  }

  lemma StepActuator(s: State, e: Event)
    requires Holds(s) && EventTyped(e)
    ensures var r := F.Step(s, e);
            && r.state.policy == s.policy && r.state.chatterOrigin == s.chatterOrigin
            && (if e.Applied? && r.ok then
                  r.state.appliedCode == s.appliedCode + e.decision.delta && r.state.dacEpoch == (s.dacEpoch + 1) % WORD
                else
                  r.state.appliedCode == s.appliedCode && r.state.dacEpoch == s.dacEpoch)
  {
    hide Holds, F.Decide, F.Confirm, Typed;
    match e
    case Observe(o) => DecisionEffect(s, o);
    case Applied(d, code, dacEpoch, exact) =>
      if F.Confirm(s, d, code, dacEpoch, exact).ok {
        ApplicationEffect(s, d, code, dacEpoch, exact);
      } else {
        RefusedApplication(s, d, code, dacEpoch, exact);
      }
    case _ =>
  }

  /** Code and epoch are the setup code and epoch plus exactly the applications of the run. */
  lemma {:induction false} ApplicationsAddUp(s0: State, run: seq<Event>, n: nat)
    requires Holds(s0) && TypedRun(run) && n <= |run|
    ensures After(s0, run, n).appliedCode == s0.appliedCode + Moved(s0, run, n)
    ensures After(s0, run, n).dacEpoch == (s0.dacEpoch + Applications(s0, run, n)) % WORD
  {
    hide Holds, F.Step;
    if n > 0 {
      ApplicationsAddUp(s0, run, n - 1);
      ReachableHolds(s0, run, n - 1);
      EventOf(run, n - 1);
      StepActuator(After(s0, run, n - 1), run[n - 1]);
      EpochAdds(s0.dacEpoch, Applications(s0, run, n - 1));
    } else {
      EpochSmall(s0);
    }
  }

  lemma EpochAdds(epoch: int, count: int)
    ensures ((epoch + count) % WORD + 1) % WORD == (epoch + count + 1) % WORD
  {
    ModMinus(epoch + count, -1, WORD);
  }

  lemma EpochSmall(s: State)
    requires Holds(s)
    ensures s.dacEpoch % WORD == s.dacEpoch
  {
  }

  /** The codes the applications of the first `n` calls travelled, in either direction. */
  function Travelled(s0: State, run: seq<Event>, n: nat): nat
    requires n <= |run|
  {
    if n == 0 then 0
    else Travelled(s0, run, n - 1) + if Applies(s0, run, n - 1) then Abs(run[n - 1].decision.delta) else 0
  }

  /** An application counts once and moves, saturating at 32 bits, and stays within both budgets. */
  lemma StepCounts(s: State, e: Event)
    requires Holds(s) && EventTyped(e)
    ensures var r := F.Step(s, e);
            if e.Applied? && r.ok then
              && r.state.applicationCount == Min(MAXIMUM_U32, s.applicationCount + 1)
              && r.state.movement == Min(MAXIMUM_U32, s.movement + Abs(e.decision.delta)) && Abs(e.decision.delta) >= 1
              && (s.policy.maximumApplications != 0 ==>
                    s.applicationCount < s.policy.maximumApplications <= MAXIMUM_U32)
              && (s.policy.maximumMovement != 0 ==>
                    s.movement + Abs(e.decision.delta) <= s.policy.maximumMovement <= MAXIMUM_U32)
            else
              r.state.applicationCount == s.applicationCount && r.state.movement == s.movement
  {
    hide Holds, F.Decide, F.Confirm, Typed, Abs;
    match e
    case Observe(o) => DecisionEffect(s, o);
    case Applied(d, code, dacEpoch, exact) =>
      if F.Confirm(s, d, code, dacEpoch, exact).ok {
        CommittedCounts(s, d, code, dacEpoch, exact);
      } else {
        RefusedApplication(s, d, code, dacEpoch, exact);
      }
    case _ =>
  }

  lemma CommittedCounts(s: State, d: Decision, code: int, dacEpoch: int, exact: bool)
    requires Holds(s) && F.Confirm(s, d, code, dacEpoch, exact).ok
    ensures var t := F.Confirm(s, d, code, dacEpoch, exact).state;
            && t.applicationCount == Min(MAXIMUM_U32, s.applicationCount + 1)
            && t.movement == Min(MAXIMUM_U32, s.movement + Abs(d.delta)) && Abs(d.delta) >= 1
    ensures s.policy.maximumApplications != 0 ==> s.applicationCount < s.policy.maximumApplications <= MAXIMUM_U32
    ensures s.policy.maximumMovement != 0 ==>
              s.movement + Abs(d.delta) <= s.policy.maximumMovement <= MAXIMUM_U32
  {
    hide RoundRatio, ResidualDebt;
  }

  /** Count and movement are those of the run, saturated; a budget that is set is never exceeded. */
  lemma {:induction false} ApplicationsAreCounted(s0: State, run: seq<Event>, n: nat)
    requires Start(s0) && TypedRun(run) && n <= |run|
    ensures After(s0, run, n).applicationCount == Min(MAXIMUM_U32, Applications(s0, run, n))
    ensures After(s0, run, n).movement == Min(MAXIMUM_U32, Travelled(s0, run, n))
    ensures s0.policy.maximumApplications != 0 ==> Applications(s0, run, n) <= s0.policy.maximumApplications
    ensures s0.policy.maximumMovement != 0 ==> Travelled(s0, run, n) <= s0.policy.maximumMovement
    ensures Applications(s0, run, n) <= Travelled(s0, run, n)
  {
    hide Holds, F.Step, Start, EventTyped, PolicyAccepted, TypedRun, Abs;
    StartHolds(s0);
    if n > 0 {
      ApplicationsAreCounted(s0, run, n - 1);
      ReachableHolds(s0, run, n - 1);
      SamePolicy(s0, run, n - 1);
      EventOf(run, n - 1);
      StepCounts(After(s0, run, n - 1), run[n - 1]);
    } else {
      BudgetsArePositive(s0);
    }
  }

  lemma BudgetsArePositive(s: State)
    requires Holds(s)
    ensures s.policy.maximumApplications >= 0 && s.policy.maximumMovement >= 0
  {
  }

  /**
   The budgets bound any run: an application budget its applications, a movement budget the
   codes they travel and, with the width of the code range, their number.
   */
  lemma ApplicationsAreFinite(s0: State, run: seq<Event>, n: nat)
    requires Start(s0) && TypedRun(run) && n <= |run|
    ensures s0.policy.maximumApplications != 0 ==> Applications(s0, run, n) <= s0.policy.maximumApplications
    ensures s0.policy.maximumMovement != 0 ==>
              && Applications(s0, run, n) <= Travelled(s0, run, n) <= s0.policy.maximumMovement
              && (Travelled(s0, run, n) < 42
                  || Travelled(s0, run, n) < 4 * (s0.policy.maximumCode - s0.policy.minimumCode))
  {
    hide Holds, F.Step, After, Applications, Travelled, Start, TypedRun;
    StartHolds(s0);
    ReachableHolds(s0, run, n);
    SamePolicy(s0, run, n);
    ApplicationsAreCounted(s0, run, n);
    if s0.policy.maximumMovement != 0 {
      ApplicationsAreBounded(After(s0, run, n));
      MovementFits(s0);
    }
  }

  lemma MovementFits(s: State)
    requires Holds(s)
    ensures s.policy.maximumMovement <= MAXIMUM_U32
  {
  }

  // ---- cadence -----------------------------------------------------------------------------

  lemma StepCadence(s: State, e: Event)
    requires Holds(s) && EventTyped(e)
    ensures var r := F.Step(s, e);
            && r.state.policy == s.policy
            && (if e.Applied? && r.ok then
                  && r.state.lastApplication.Some? && r.state.lastApplication.value.ticks == e.decision.ticks
                  && (s.lastApplication.Some? ==>
                        e.decision.ticks >= s.lastApplication.value.ticks + s.policy.minimumCadenceS * TICKS_PER_SECOND)
                else
                  s.lastApplication.Some? ==> r.state.lastApplication == s.lastApplication)
  {
    hide Holds, F.Decide, F.Confirm, Typed;
    match e
    case Observe(o) => DecisionEffect(s, o);
    case Applied(d, code, dacEpoch, exact) =>
      if F.Confirm(s, d, code, dacEpoch, exact).ok {
        ApplicationEffect(s, d, code, dacEpoch, exact);
      } else {
        RefusedApplication(s, d, code, dacEpoch, exact);
      }
    case _ =>
  }

  /** After an application the last application never moves back before it. */
  lemma {:induction false} CadenceFrontier(s0: State, run: seq<Event>, i: nat, n: nat)
    requires Holds(s0) && TypedRun(run) && i < n <= |run| && Applies(s0, run, i)
    ensures var s := After(s0, run, n);
            s.lastApplication.Some? && s.lastApplication.value.ticks >= run[i].decision.ticks && s.policy == s0.policy
    decreases n
  {
    hide Holds, F.Step;
    ReachableHolds(s0, run, n - 1);
    EventOf(run, n - 1);
    StepCadence(After(s0, run, n - 1), run[n - 1]);
    SamePolicy(s0, run, n);
    CadencePositive(After(s0, run, n - 1));
    if n > i + 1 {
      CadenceFrontier(s0, run, i, n - 1);
    }
  }

  lemma CadencePositive(s: State)
    requires Holds(s)
    ensures s.policy.minimumCadenceS * TICKS_PER_SECOND > 0
  {
  }

  lemma {:induction false} SamePolicy(s0: State, run: seq<Event>, n: nat)
    requires Holds(s0) && TypedRun(run) && n <= |run|
    ensures After(s0, run, n).policy == s0.policy
  {
    hide Holds, F.Step;
    if n > 0 {
      SamePolicy(s0, run, n - 1);
      ReachableHolds(s0, run, n - 1);
      EventOf(run, n - 1);
      StepCadence(After(s0, run, n - 1), run[n - 1]);
    }
  }

  /** Any two applications of a run were decided at least the minimum cadence apart. */
  lemma ApplicationsKeepCadence(s0: State, run: seq<Event>, i: nat, j: nat)
    requires Start(s0) && TypedRun(run) && i < j < |run| && Applies(s0, run, i) && Applies(s0, run, j)
    ensures run[j].decision.ticks >= run[i].decision.ticks + s0.policy.minimumCadenceS * 1_000_000
  {
    hide Holds, F.Step;
    StartHolds(s0);
    CadenceFrontier(s0, run, i, j);
    ReachableHolds(s0, run, j);
    EventOf(run, j);
    StepCadence(After(s0, run, j), run[j]);
  }

  // ---- fail-static -------------------------------------------------------------------------

  /** From the first failure on nothing moves until the engine is initialised again. */
  lemma {:induction false} FailStaticForGood(s0: State, run: seq<Event>, i: nat, n: nat)
    requires Start(s0) && TypedRun(run) && i <= n <= |run| && After(s0, run, i).failReason.Some?
    ensures var s, t := After(s0, run, i), After(s0, run, n);
            && t.failReason.Some? && t.appliedCode == s.appliedCode && t.dacEpoch == s.dacEpoch
            && t.applicationCount == s.applicationCount
    ensures n < |run| ==>
              && !Applies(s0, run, n)
              && (run[n].Observe? ==> Answer(s0, run, n).decision.value.delta == 0)
    decreases n
  {
    hide Holds, F.Step, Start, Applies, Answer;
    StartHolds(s0);
    if n > i {
      FailStaticForGood(s0, run, i, n - 1);
      ReachableHolds(s0, run, n - 1);
      FailStaticIsSticky(After(s0, run, n - 1), run[n - 1]);
    }
    if n < |run| {
      ReachableHolds(s0, run, n);
      FailStaticAnswers(s0, run, n);
    }
  }

  lemma FailStaticAnswers(s0: State, run: seq<Event>, n: nat)
    requires n < |run| && Holds(After(s0, run, n)) && After(s0, run, n).failReason.Some?
    ensures !Applies(s0, run, n)
    ensures run[n].Observe? ==> Answer(s0, run, n).decision.value.delta == 0
  {
    hide Holds, F.Step, After;
    FailStaticIsSticky(After(s0, run, n), run[n]);
    ObserveAnswers(After(s0, run, n), run[n]);
  }

  lemma ObserveAnswers(s: State, e: Event)
    ensures e.Observe? ==> F.Step(s, e).decision == Some(F.Decide(s, e.observation).decision)
    ensures e.Observe? ==> F.Step(s, e).state == F.Decide(s, e.observation).state
  {
    hide F.Decide;
  }

  // ---- the engine's own reports ----------------------------------------------------------------

  /** In every reachable state a recorded window was observed under the present code and epoch. */
  lemma {:induction false} ReachableIsCurrent(s0: State, run: seq<Event>, n: nat)
    requires Start(s0) && TypedRun(run) && n <= |run|
    ensures Current(After(s0, run, n))
  {
    hide Holds, F.Step, Current;
    StartHolds(s0);
    if n > 0 {
      ReachableIsCurrent(s0, run, n - 1);
      ReachableHolds(s0, run, n - 1);
      EventOf(run, n - 1);
      StepKeepsCurrent(After(s0, run, n - 1), run[n - 1]);
    } else {
      StartIsCurrent(s0);
    }
  }

  lemma StartIsCurrent(s0: State)
    requires Start(s0)
    ensures Current(s0) && s0.failReason == None && s0.directions == []
  {
  }

  /** Every observation so far reported the code and epoch the engine had. */
  ghost predicate OwnReports(s0: State, run: seq<Event>, n: nat)
    requires n <= |run|
  {
    forall i :: 0 <= i < n && run[i].Observe? ==> Reports(run[i].observation, After(s0, run, i))
  }

  /**
   While observations report the engine's own code and epoch it never answers, and never fails on,
   a contradiction.
   */
  lemma {:induction false} OwnReportsNeverContradict(s0: State, run: seq<Event>, n: nat)
    requires Start(s0) && TypedRun(run) && n <= |run| && OwnReports(s0, run, n)
    ensures After(s0, run, n).failReason != Some(ContradictoryApplication)
    ensures forall i :: 0 <= i < n && run[i].Observe? ==>
                          Answer(s0, run, i).decision.value.reason != ContradictoryApplication
  {
    hide Holds, F.Step, Start, TypedRun, EventTyped, Current, Reports;
    if n > 0 {
      StartHolds(s0);
      OwnReportsNeverContradict(s0, run, n - 1);
      ReachableHolds(s0, run, n - 1);
      ReachableIsCurrent(s0, run, n - 1);
      EventOf(run, n - 1);
      OwnReport(After(s0, run, n - 1), run[n - 1]);
    } else {
      StartIsCurrent(s0);
    }
  }

  lemma OwnReport(s: State, e: Event)
    requires Holds(s) && EventTyped(e) && Current(s) && s.failReason != Some(ContradictoryApplication)
    requires e.Observe? ==> Reports(e.observation, s)
    ensures F.Step(s, e).state.failReason != Some(ContradictoryApplication)
    ensures e.Observe? ==> F.Step(s, e).decision.value.reason != ContradictoryApplication
  {
    hide Holds, F.Decide, Current, ResidualDebt, MatchesSnapshot, Typed;
    if e.Observe? {
      OwnObservation(s, e.observation);
    }
  }

  lemma OwnObservation(s: State, o: Observation)
    requires Holds(s) && Typed(o) && Current(s) && s.failReason != Some(ContradictoryApplication) && Reports(o, s)
    ensures F.Decide(s, o).state.failReason != Some(ContradictoryApplication)
    ensures F.Decide(s, o).decision.reason != ContradictoryApplication
  {
    hide Holds, F.Decide, Current, Typed, Frozen;
    if s.failReason == None {
      ContradictionExactly(s, o);
    } else {
      EarlyLaw(s, o);
    }
  }

  // ---- directions --------------------------------------------------------------------------------

  /** The signs of the movements the first `n` calls applied, in order. */
  function Signs(s0: State, run: seq<Event>, n: nat): seq<int>
    requires n <= |run|
  {
    if n == 0 then []
    else
      Signs(s0, run, n - 1)
      + if Applies(s0, run, n - 1) then [if run[n - 1].decision.delta > 0 then 1 else -1] else []
  }

  /** The direction history is that of the applications of the run. */
  lemma {:induction false} DirectionsAreSigns(s0: State, run: seq<Event>, n: nat)
    requires Start(s0) && TypedRun(run) && n <= |run|
    ensures After(s0, run, n).directions == Signs(s0, run, n)
  {
    hide Holds, F.Step, Start, TypedRun, EventTyped;
    StartHolds(s0);
    if n > 0 {
      DirectionsAreSigns(s0, run, n - 1);
      ReachableHolds(s0, run, n - 1);
      EventOf(run, n - 1);
      StepDirections(After(s0, run, n - 1), run[n - 1]);
    } else {
      StartIsCurrent(s0);
    }
  }

  lemma StepDirections(s: State, e: Event)
    requires Holds(s) && EventTyped(e)
    ensures var r := F.Step(s, e);
            r.state.directions
            == s.directions + if e.Applied? && r.ok then [if e.decision.delta > 0 then 1 else -1] else []
  {
    hide Holds, F.Decide, F.Confirm, Typed;
    match e
    case Observe(o) => DecisionEffect(s, o);
    case Applied(d, code, dacEpoch, exact) =>
      if F.Confirm(s, d, code, dacEpoch, exact).ok {
        CommittedDirection(s, d, code, dacEpoch, exact);
      } else {
        RefusedApplication(s, d, code, dacEpoch, exact);
      }
    case _ =>
  }

  lemma CommittedDirection(s: State, d: Decision, code: int, dacEpoch: int, exact: bool)
    requires F.Confirm(s, d, code, dacEpoch, exact).ok
    ensures F.Confirm(s, d, code, dacEpoch, exact).state.directions
            == s.directions + [if d.delta > 0 then 1 else -1]
  {
    hide ResidualDebt;
  }

  // ---- history of a maintenance request ------------------------------------------------------

  /** Call `j` observed the window `p` records. */
  predicate Recorded(run: seq<Event>, j: nat, p: Persistence) {
    j < |run| && run[j].Observe? && Records(p, run[j].observation)
  }

  lemma {:induction false} WindowWasObserved(s0: State, run: seq<Event>, n: nat) returns (j: nat)
    requires Start(s0) && TypedRun(run) && n <= |run| && After(s0, run, n).persistence.count != 0
    ensures j < n && Recorded(run, j, After(s0, run, n).persistence)
    decreases n
  {
    hide Holds, F.Step, Records;
    StartHolds(s0);
    if n == 0 {
      assert false;
    } else {
      ReachableHolds(s0, run, n - 1);
      EventOf(run, n - 1);
      StepWindow(After(s0, run, n - 1), run[n - 1]);
      if After(s0, run, n).persistence == After(s0, run, n - 1).persistence {
        j := WindowWasObserved(s0, run, n - 1);
      } else {
        j := n - 1;
      }
    }
  }

  /** The observation of call `n` proposes a maintenance movement. */
  predicate RequestsMaintenance(s0: State, run: seq<Event>, n: nat)
    requires n < |run|
  {
    run[n].Observe? && Answer(s0, run, n).decision.value.maintenance
  }

  /**
   A maintenance request is never the first sight of its centre: some earlier observation of
   the run had the same identity and the same strict sign, and closed where this one opens.
   */
  lemma MaintenanceHasPredecessor(s0: State, run: seq<Event>, n: nat) returns (j: nat)
    requires Start(s0) && TypedRun(run) && n < |run| && RequestsMaintenance(s0, run, n)
    ensures j < n && run[j].Observe?
    ensures var before, now := run[j].observation, run[n].observation;
            && IdentityOf(before) == IdentityOf(now)
            && CentreSign(before) == CentreSign(now) != 0
            && before.closing == now.opening
  {
    hide Holds, F.Step, F.Decide, IdentityOf, CentreSign, Typed;
    StartHolds(s0);
    ReachableHolds(s0, run, n);
    EventOf(run, n);
    ObserveAnswers(After(s0, run, n), run[n]);
    MaintenanceExtendsWindow(After(s0, run, n), run[n].observation);
    j := WindowWasObserved(s0, run, n);
  }

  // ---- history of a request after a metadata hold ----------------------------------------------

  /** Call `q` brought fresh metadata and was accepted. */
  predicate Refreshed(s0: State, run: seq<Event>, q: nat) {
    q < |run| && run[q].MetadataFresh? && Answer(s0, run, q).ok
  }

  /** Call `q` brought fresh metadata, and the requalification state still names its frontier. */
  predicate Opened(s0: State, run: seq<Event>, q: nat, r: Requalification) {
    Refreshed(s0, run, q) && r.epoch == Some(run[q].epoch) && r.ordinal == Some(run[q].ordinal)
  }

  /** An observation past the frontier of call `q`. */
  predicate Past(s0: State, run: seq<Event>, q: nat, j: nat) {
    && Refreshed(s0, run, q) && q < j < |run| && run[j].Observe?
    && run[j].observation.acceptanceEpoch == run[q].epoch
    && AtOrAfter(run[j].observation.opening, run[q].ordinal)
  }

  /** Two contiguous windows of one identity, both past the frontier of fresh metadata that followed call `h`. */
  predicate Requalified(s0: State, run: seq<Event>, h: nat, q: nat, j1: nat, j2: nat) {
    && h <= q && Past(s0, run, q, j1) && Past(s0, run, q, j2) && j1 < j2
    && run[j1].observation.closing == run[j2].observation.opening
    && IdentityOf(run[j1].observation) == IdentityOf(run[j2].observation)
  }

  /**
   Since the freeze at `h`, either the gate has opened properly, or it is closed and remembers how
   far it has come.
   */
  ghost predicate GateHistory(s0: State, run: seq<Event>, h: nat, n: nat, s: State) {
    || PairSeen(s0, run, h, n)
    || (s.metadataHold && (s.metadataRequalified ==> GateRemembered(s0, run, h, n, s.requalification)))
  }

  /** A requalifying pair lies before call `n`. */
  ghost predicate PairSeen(s0: State, run: seq<Event>, h: nat, n: nat) {
    exists q: nat, j1: nat, j2: nat :: j2 < n && Requalified(s0, run, h, q, j1, j2)
  }

  ghost predicate GateRemembered(s0: State, run: seq<Event>, h: nat, n: nat, r: Requalification) {
    exists q: nat :: h <= q < n && GateOpen(s0, run, q, n, r)
  }

  ghost predicate GateOpen(s0: State, run: seq<Event>, q: nat, n: nat, r: Requalification) {
    && Opened(s0, run, q, r)
    && (r.lastClosing.Some? ==> exists j: nat :: j < n && Past(s0, run, q, j) && Holding(run, j, r))
  }

  /** The gate's last window is the observation of call `j`. */
  predicate Holding(run: seq<Event>, j: nat, r: Requalification) {
    j < |run| && run[j].Observe? && r.lastClosing == Some(run[j].observation.closing)
    && r.identity == Some(IdentityOf(run[j].observation))
  }

  lemma GateStep(s0: State, run: seq<Event>, h: nat, n: nat, s: State, t: State)
    requires h <= n < |run| && GateHistory(s0, run, h, n, s)
    requires SameMetadata(s, t) || Frozen(t) || (OpensGate(t, run[n]) && Answer(s0, run, n).ok)
             || (run[n].Observe? && GateMoves(s, t, run[n].observation))
    ensures GateHistory(s0, run, h, n + 1, t)
  {
    hide IdentityOf, AtOrAfter, PairSeen, GateRemembered, Answer;
    if PairSeen(s0, run, h, n) {
      PairLater(s0, run, h, n);
    } else if OpensGate(t, run[n]) && Answer(s0, run, n).ok {
      GateOpens(s0, run, h, n, t);
    } else if !Frozen(t) {
      if s.metadataRequalified {
        if SameMetadata(s, t) {
          RememberedLater(s0, run, h, n, s.requalification);
        } else {
          GateAdvances(s0, run, h, n, s, t);
        }
      }
    }
  }

  lemma PairLater(s0: State, run: seq<Event>, h: nat, n: nat)
    requires PairSeen(s0, run, h, n)
    ensures PairSeen(s0, run, h, n + 1)
  {
    hide Requalified;
    var q: nat, j1: nat, j2: nat :| j2 < n && Requalified(s0, run, h, q, j1, j2);
    assert j2 < n + 1 && Requalified(s0, run, h, q, j1, j2);
  }

  lemma GateOpens(s0: State, run: seq<Event>, h: nat, n: nat, t: State)
    requires h <= n < |run| && OpensGate(t, run[n]) && Answer(s0, run, n).ok
    ensures GateRemembered(s0, run, h, n + 1, t.requalification)
  {
    assert h <= n < n + 1 && GateOpen(s0, run, n, n + 1, t.requalification);
  }

  lemma RememberedLater(s0: State, run: seq<Event>, h: nat, n: nat, r: Requalification)
    requires GateRemembered(s0, run, h, n, r)
    ensures GateRemembered(s0, run, h, n + 1, r)
  {
    hide GateOpen;
    var q: nat :| h <= q < n && GateOpen(s0, run, q, n, r);
    GateOpenLater(s0, run, q, n, r);
    assert h <= q < n + 1 && GateOpen(s0, run, q, n + 1, r);
  }

  lemma GateOpenLater(s0: State, run: seq<Event>, q: nat, n: nat, r: Requalification)
    requires GateOpen(s0, run, q, n, r)
    ensures GateOpen(s0, run, q, n + 1, r)
  {
    hide Past, Holding, Opened;
  }

  lemma GateAdvances(s0: State, run: seq<Event>, h: nat, n: nat, s: State, t: State)
    requires h <= n < |run| && run[n].Observe? && GateMoves(s, t, run[n].observation)
    requires GateRemembered(s0, run, h, n, s.requalification)
    ensures if t.metadataHold then GateRemembered(s0, run, h, n + 1, t.requalification) else PairSeen(s0, run, h, n + 1)
  {
    hide IdentityOf, AtOrAfter, Answer;
    var q: nat :| h <= q < n && GateOpen(s0, run, q, n, s.requalification);
    assert Past(s0, run, q, n);
    if t.metadataHold {
      assert Holding(run, n, t.requalification);
      assert h <= q < n + 1 && GateOpen(s0, run, q, n + 1, t.requalification);
    } else {
      var j: nat :| j < n && Past(s0, run, q, j) && Holding(run, j, s.requalification);
      assert n < n + 1 && Requalified(s0, run, h, q, j, n);
    }
  }

  lemma {:induction false} GateIsRemembered(s0: State, run: seq<Event>, h: nat, n: nat)
    requires Start(s0) && TypedRun(run) && h <= n <= |run| && Frozen(After(s0, run, h))
    ensures GateHistory(s0, run, h, n, After(s0, run, n))
    decreases n
  {
    hide Holds, F.Step, GateHistory, GateMoves, OpensGate, SameMetadata, EventTyped;
    StartHolds(s0);
    if n > h {
      GateIsRemembered(s0, run, h, n - 1);
      ReachableHolds(s0, run, n - 1);
      EventOf(run, n - 1);
      StepMetadata(After(s0, run, n - 1), run[n - 1]);
      GateStep(s0, run, h, n - 1, After(s0, run, n - 1), After(s0, run, n));
    } else {
      FrozenHistory(s0, run, h, After(s0, run, h));
    }
  }

  lemma FrozenHistory(s0: State, run: seq<Event>, h: nat, s: State)
    requires Frozen(s)
    ensures GateHistory(s0, run, h, h, s)
  {
  }

  /**
   After a metadata hold no movement is proposed until fresh metadata has been followed by
   two contiguous windows of one identity, both opening at or after its modular frontier.
   */
  lemma RequestFollowsRequalification(s0: State, run: seq<Event>, h: nat, n: nat)
    requires Start(s0) && TypedRun(run) && h <= n < |run| && Frozen(After(s0, run, h))
    requires run[n].Observe? && Answer(s0, run, n).decision.value.delta != 0
    ensures exists q: nat, j1: nat, j2: nat :: j2 <= n && Requalified(s0, run, h, q, j1, j2)
  {
    hide Holds, F.Step, F.Decide, Requalified, GateHistory, Frozen, EventTyped;
    StartHolds(s0);
    ReachableHolds(s0, run, n);
    EventOf(run, n);
    RequestOpen(After(s0, run, n), run[n]);
    GateIsRemembered(s0, run, h, n + 1);
    OpenMeansPair(s0, run, h, n + 1, After(s0, run, n + 1));
  }

  lemma RequestOpen(s: State, e: Event)
    requires Holds(s) && EventTyped(e) && e.Observe? && F.Step(s, e).decision.value.delta != 0
    ensures !F.Step(s, e).state.metadataHold
  {
    hide Holds, F.Decide, Typed;
    RequestNeedsOpenGate(s, e.observation);
  }

  lemma OpenMeansPair(s0: State, run: seq<Event>, h: nat, n: nat, s: State)
    requires GateHistory(s0, run, h, n, s) && !s.metadataHold
    ensures PairSeen(s0, run, h, n)
  {
    hide PairSeen, GateRemembered;
  }

  // ---- agreement of whole runs -----------------------------------------------------------------

  function HostAfter(s0: State, run: seq<Event>, n: nat): State
    requires n <= |run|
  {
    if n == 0 then s0 else HostStep(HostAfter(s0, run, n - 1), run[n - 1]).state
  }

  predicate EpochTyped(e: Event) {
    e.Applied? ==> InU64(e.dacEpoch)
  }

  /** Host and firmware answer call `i` alike, decision included. */
  predicate SameAnswer(s0: State, run: seq<Event>, i: nat)
    requires i < |run|
  {
    Answer(s0, run, i) == HostStep(HostAfter(s0, run, i), run[i])
  }

  lemma CallAgrees(s0: State, run: seq<Event>, i: nat)
    requires i < |run| && Holds(After(s0, run, i)) && EventTyped(run[i]) && EpochTyped(run[i])
    requires After(s0, run, i) == HostAfter(s0, run, i) && !Differs(After(s0, run, i), run[i])
    ensures SameAnswer(s0, run, i) && After(s0, run, i + 1) == HostAfter(s0, run, i + 1)
  {
    hide Holds, F.Step, HostStep, Differs, EventTyped;
    StepsAgreeExactly(After(s0, run, i), run[i]);
  }

  ghost predicate NoDifference(s0: State, run: seq<Event>, n: nat)
    requires n <= |run|
  {
    forall i :: 0 <= i < n ==> EpochTyped(run[i]) && !Differs(After(s0, run, i), run[i])
  }

  lemma DifferenceAt(s0: State, run: seq<Event>, n: nat, i: nat)
    requires i < n <= |run| && NoDifference(s0, run, n)
    ensures EpochTyped(run[i]) && !Differs(After(s0, run, i), run[i]) && NoDifference(s0, run, i)
  {
    hide Differs, After;
  }

  /** While no call is one of the differences, host and firmware agree on every state, answer and decision. */
  lemma {:induction false} RunsAgree(s0: State, run: seq<Event>, n: nat)
    requires Start(s0) && TypedRun(run) && n <= |run| && NoDifference(s0, run, n)
    ensures After(s0, run, n) == HostAfter(s0, run, n)
    ensures forall i :: 0 <= i < n ==> SameAnswer(s0, run, i)
  {
    hide Holds, SameAnswer, NoDifference, Start, TypedRun, EventTyped, EpochTyped, Differs, F.Step, HostStep;
    if n > 0 {
      StartHolds(s0);
      DifferenceAt(s0, run, n, n - 1);
      RunsAgree(s0, run, n - 1);
      ReachableHolds(s0, run, n - 1);
      EventOf(run, n - 1);
      CallAgrees(s0, run, n - 1);
    }
  }
}
