/**
 The firmware engine's transitions, stated as the host controller's transitions with the
 firmware's own differences written out and nothing else changed: code differences in
 32 bits, an exact 600-interval span of 32-bit ordinals, an exhausted decision sequence, a source
 gap that contains zero, applications matched on the snapshot fields only and an epoch that
 wraps, metadata calls refused while a transaction is outstanding, and the binding of the
 setup application.
 */
module Firmware {
  import opened Words
  import opened Controller
  import C = Controller

  const SPAN_INTERVALS: int := 600
  const MAXIMUM_U64: int := 0xFFFF_FFFF_FFFF_FFFF
  const MAXIMUM_U32: int := 0xFFFF_FFFF

  predicate ExactSpan(o: Observation) {
    o.opening <= MAXIMUM_U32 && o.closing <= MAXIMUM_U32 && Modular(o.closing - o.opening) == SPAN_INTERVALS
  }

  /** Where the host restarts a window on an interval that contains zero, the firmware keeps no window. */
  predicate GapWithZero(host: Outcome) {
    host.state.failReason == None && host.decision.reason == SourceGapRestart && host.state.persistence.sign == 0
  }

  function WithoutWindow(host: Outcome): Outcome {
    Outcome(host.state.(persistence := NO_PERSISTENCE),
            host.decision.(reason := ZeroContaining, persistenceCount := 0))
  }

  function Settle(host: Outcome): Outcome {
    if GapWithZero(host) then WithoutWindow(host) else host
  }

  /** The span check is reached only by a live engine whose clock agrees with itself. */
  predicate ReachesSpanCheck(s: State, o: Observation) {
    s.failReason == None && o.timestampS == o.timestampTicks / TICKS_PER_SECOND
  }

  function Decide(s: State, o: Observation): Outcome {
    if s.decisionSequence == MAXIMUM_U64 then Fail(s, DecisionIdentityExhausted)
    else if ReachesSpanCheck(s, o) && !ExactSpan(o) then Fail(Observed(s, o), InvalidFrontier)
    else Settle(C.Decide(Bits32, s, o))
  }

  /** The snapshot fields a returned decision must repeat; its reason, cap, window count and debt are not among them. */
  predicate MatchesSnapshot(p: Decision, d: Decision) {
    && d.sequence == p.sequence && d.delta == p.delta && d.code == p.code
    && d.raw == p.raw && d.fll == p.fll && d.pll == p.pll
    && d.maintenance == p.maintenance && d.ticks == p.ticks && d.projection == p.projection
  }

  function Confirm(s: State, d: Decision, code: int, dacEpoch: int, exact: bool): Transition {
    if s.pending == None || s.responsePending || !MatchesSnapshot(s.pending.value.decision, d) || d.delta == 0 then
      Transition(FailStatic(s, UnexpectedApplication), false)
    else if !exact || code != s.pending.value.decision.code || dacEpoch != (s.dacEpoch + 1) % WORD then
      Transition(FailStatic(s, InexactConsumer), false)
    else
      Transition(Commit(s, s.pending.value, code, dacEpoch), true)
  }

  function Reject(s: State): Transition {
    C.Reject(s)
  }

  function Complete(s: State, freshExact: bool): Transition {
    Transition(C.Complete(s, freshExact), s.responsePending && freshExact)
  }

  function EnterMetadataHold(s: State): Transition {
    if s.pending.Some? then Transition(s, false) else Transition(EnterHold(s), true)
  }

  function RequalifyMetadata(s: State, epoch: int, ordinal: int): Transition {
    if s.pending.Some? || s.responsePending then Transition(s, false) else C.RequalifyMetadata(s, epoch, ordinal)
  }

  function Activate(s: State): Transition {
    C.Activate(s)
  }

  function BindSetup(s: State, ticks: int): Transition {
    if ticks == 0 || s.lastApplication.Some? || s.pending.Some? || s.responsePending || s.applicationCount != 0
       || s.dacEpoch == 0 then Transition(s, false)
    else Transition(s.(lastApplication := Some(Stamp(ticks / TICKS_PER_SECOND, ticks))), true)
  }

  // ---- events ----------------------------------------------------------------------------

  datatype Event =
    | Observe(observation: Observation)
    | Expire
    | Applied(decision: Decision, code: int, dacEpoch: int, exact: bool)
    | Respond(freshExact: bool)
    | MetadataLost
    | MetadataFresh(epoch: int, ordinal: int)
    | PolicyActivated
    | SetupBound(ticks: int)

  /** The next state, whether the call succeeded, and the decision an observation produces. */
  datatype Result = Result(state: State, ok: bool, decision: Option<Decision>)

  function OfTransition(t: Transition): Result {
    Result(t.state, t.ok, None)
  }

  function Step(s: State, e: Event): Result {
    match e
    case Observe(o) => Result(Decide(s, o).state, true, Some(Decide(s, o).decision))
    case Expire => OfTransition(Reject(s))
    case Applied(d, code, dacEpoch, exact) => OfTransition(Confirm(s, d, code, dacEpoch, exact))
    case Respond(freshExact) => OfTransition(Complete(s, freshExact))
    case MetadataLost => OfTransition(EnterMetadataHold(s))
    case MetadataFresh(epoch, ordinal) => OfTransition(RequalifyMetadata(s, epoch, ordinal))
    case PolicyActivated => OfTransition(Activate(s))
    case SetupBound(ticks) => OfTransition(BindSetup(s, ticks))
  }
}
