# OTIS: verified model of the regulation, counting and replay core

OTIS disciplines a crystal oscillator against a PPS reference. An RP2040 counts oscillator
cycles with a PIO program and steers the oscillator through a DAC; a host keeps the same
controller over exact rationals, records the serial stream and replays the evidence. This
project models four parts of that system in Dafny and proves what they promise.

| part | modules |
|---|---|
| 127-bit signed-magnitude arithmetic, decimal text and exact rounding | `Words`, `WideArithmetic`, `Decimal`, `Rounding` |
| the adaptive FLL/PLL engine, its host twin and whole runs | `Controller` (host), `Firmware` (host plus differences), `Demand`, `Invariant`, `Cases`, `Engine` (the mutable class over limbs), `Safety`, `Windows`, `Laws`, `Runs`, `Agreement`, `Witness` |
| the PIO snapshot program | `SnapshotMachine` |
| evidence replay and stream framing | `References`, `RawReplay`, `AcceptedSpans`, `TimeDomains`, `Framing` |

How the parts hang together:

- The limb methods are proved equal to integer functions, refusing exactly when the true
  result does not fit. `Rounding` builds the two shortcuts that avoid a large product on
  top of them and proves each equal to a single rounded ratio.
- `Controller` states the host controller as pure transitions. `Firmware` states the
  firmware as those transitions with its own differences written out. The class
  `Engine.RegulationEngine` updates fields in place, works on limbs and keeps a three-slot
  direction window and a pending snapshot; every method is proved to make exactly the
  transition of `Firmware`. `Agreement` then says exactly when the two controllers agree.
- `Invariant` shows what every call keeps. `Safety` and `Windows` show what one call
  guarantees in a reachable state. `Laws` says, from the fields of engine and observation
  alone, what every decision answers and what becomes of debt and window. `Runs` lifts this
  to runs of any length from initialisation. `Witness` shows that the runs these theorems speak about exist.
- `SnapshotMachine` interprets the assembled words, proves them to be the listing of
  `otis_pps_snapshot.pio`, and then argues over every sampled oscillator and PPS stream
  instead of a finite sweep of phases and dwells.
- `References`, `RawReplay` and `AcceptedSpans` are loops over dictionaries, sets and
  lists; each is proved to decide a declarative relation between the recorded rows.

## What the proofs showed

- The firmware and the host part in more places than the span of 600 intervals, the source
  gap with a zero-containing interval and the metadata calls during a transaction: the
  firmware also stops when its decision sequence is exhausted, refuses ordinals wider than
  32 bits, matches a returned decision only on the fields of its pending snapshot
  (`otis_adaptive_hybrid_regulation.cpp:996-1018`), and wraps the DAC epoch
  (`otis_adaptive_hybrid_regulation.cpp:1025`). Binding the setup application exists on the
  firmware only. And initialisation accepts code ranges wider than 2^31-1, where the int32
  range headroom (`otis_adaptive_hybrid_regulation.cpp:308`) overflows; the model gives it
  the two's-complement wrap, under which the firmware's cap is zero. `Agreement.StepsAgreeExactly`
  lists them all, as an equivalence; with a range at most 2^31-1 wide the last one is absent.
- The maintenance clamp loses demand exactly when it binds by more than half a code
  (`Safety.DebtIsConserved`).
- The finite phase sweep demands boundary errors of at most one cycle. The only word that
  counts one cycle too few is that of a rise sampled at clock 5 of a stream whose first high
  level was cut to one clock (`SnapshotMachine.SnapshotErrorExactly`). A span that starts there
  and ends where the program is ahead is off by two, and `SnapshotMachine.CutStreamNeedsTwo`
  gives one; every other span keeps the bound.
- The cumulative endpoint check of an accepted span can never fail after its sum check
  (`AcceptedSpans.EndpointsFollowFromSum`).
- Where a line exceeds 8192 bytes the live parser and the offline iterator part: one drops
  the whole line, the other yields a mark and then the tail as a line of its own, and both
  depend on the chunking. The live parser never hands on a part of such a line
  (`Framing.LiveHandsOnLines`). `Framing.LiveAndOfflineAgreeExactly` says that they agree for every
  chunking exactly when no terminated line is that long.
- A recording whose only accepted span is a late attachment is never exact: the replay also
  needs a span whose raw rows it holds (`AcceptedSpans.ReplayAcceptedSpans`).

## Model

| member | source | states |
|---|---|---|
| WideArithmetic.MakeIsCanonical | firmware/arduino/otis_nano_rp2040_connect/otis_adaptive_hybrid_wide.h:26-30 | The normalising constructor yields exactly the canonical limbs of the signed integer: never a negative zero. |
| WideArithmetic.FromI64 | firmware/arduino/otis_nano_rp2040_connect/otis_adaptive_hybrid_wide.h:18-24 | Every int64, its minimum included, becomes the canonical limbs of the same integer. |
| WideArithmetic.ValidIsCanonical | firmware/arduino/otis_nano_rp2040_connect/otis_adaptive_hybrid_wide.cpp:119-122 | A valid representation is the only one of its integer, and its integer lies in the symmetric 127-bit domain. |
| WideArithmetic.Compare | firmware/arduino/otis_nano_rp2040_connect/otis_adaptive_hybrid_wide.cpp:134-139 | The three-way comparison orders representations, negative zeros included, as the integers they denote. |
| WideArithmetic.Less | firmware/arduino/otis_nano_rp2040_connect/otis_adaptive_hybrid_wide.h:73-87 | The comparison operators are the order of the denoted integers. |
| WideArithmetic.MagnitudeAdd | firmware/arduino/otis_nano_rp2040_connect/otis_adaptive_hybrid_wide.cpp:17-28 | Carry-detecting addition of two-limb magnitudes is exact and is refused exactly above 2^127-1. |
| WideArithmetic.MagnitudeSubtract | firmware/arduino/otis_nano_rp2040_connect/otis_adaptive_hybrid_wide.cpp:30-35 | Borrowing subtraction of a smaller magnitude is exact. |
| WideArithmetic.MagnitudeMultiply | firmware/arduino/otis_nano_rp2040_connect/otis_adaptive_hybrid_wide.cpp:51-67 | Shift-and-add multiplication succeeds exactly when the product of the magnitudes fits, in spite of the early refusal when the multiplicand can no longer be shifted, and is then exact. |
| WideArithmetic.MagnitudeBitIsBit | firmware/arduino/otis_nano_rp2040_connect/otis_adaptive_hybrid_wide.cpp:69-72 | The bit test over two limbs reads the binary digit of the 128-bit magnitude. |
| WideArithmetic.MagnitudeSetBit | firmware/arduino/otis_nano_rp2040_connect/otis_adaptive_hybrid_wide.cpp:74-79 | Setting a clear bit of the two limbs adds its power of two. |
| WideArithmetic.MagnitudeDivide | firmware/arduino/otis_nano_rp2040_connect/otis_adaptive_hybrid_wide.cpp:81-102 | The 128-round restoring loop computes Euclidean quotient and remainder of the magnitudes; no shift drops a bit. |
| WideArithmetic.ToI64 | firmware/arduino/otis_nano_rp2040_connect/otis_adaptive_hybrid_wide.cpp:153-170 | Conversion to int64 succeeds exactly on the int64 range, minimum included, and keeps the integer. |
| WideArithmetic.ToU64 | firmware/arduino/otis_nano_rp2040_connect/otis_adaptive_hybrid_wide.cpp:172-178 | Conversion to uint64 succeeds exactly on non-negative one-limb values. |
| WideArithmetic.Absolute | firmware/arduino/otis_nano_rp2040_connect/otis_adaptive_hybrid_wide.cpp:180-184 | Absolute value in the symmetric domain never overflows. |
| WideArithmetic.Negate | firmware/arduino/otis_nano_rp2040_connect/otis_adaptive_hybrid_wide.cpp:186-191 | Negation in the symmetric domain is total on valid values and canonical. |
| WideArithmetic.CheckedAdd | firmware/arduino/otis_nano_rp2040_connect/otis_adaptive_hybrid_wide.cpp:193-218 | Succeeds exactly when the true sum is in [-(2^127-1), 2^127-1], and then returns its canonical limbs. |
| WideArithmetic.CheckedSubtract | firmware/arduino/otis_nano_rp2040_connect/otis_adaptive_hybrid_wide.cpp:220-226 | The same for the difference. |
| WideArithmetic.CheckedMultiply | firmware/arduino/otis_nano_rp2040_connect/otis_adaptive_hybrid_wide.cpp:228-239 | The same for the product. |
| WideArithmetic.Divide | firmware/arduino/otis_nano_rp2040_connect/otis_adaptive_hybrid_wide.cpp:241-262 | For valid n and non-zero d: n = q*d + r, &#124;r&#124; < &#124;d&#124;, and r is zero or has the sign of n. |
| WideArithmetic.TruncationIsUnique | firmware/arduino/otis_nano_rp2040_connect/otis_adaptive_hybrid_wide.h:55-59 | Those conditions determine quotient and remainder, so the division contract admits one answer. |
| Decimal.ParseDecimal | firmware/arduino/otis_nano_rp2040_connect/otis_adaptive_hybrid_wide.cpp:264-284 | A text parses exactly when it is an optional sign and then digits whose magnitude is at most 2^127-1, and to that canonical value. |
| Decimal.DigitCount | firmware/arduino/otis_nano_rp2040_connect/otis_adaptive_hybrid_wide.cpp:286-318 | A magnitude below a power of ten has no more digits than its exponent. |
| Decimal.ParseMeans | firmware/arduino/otis_nano_rp2040_connect/otis_adaptive_hybrid_wide.cpp:264-284 | A text denotes a number exactly when it is digits, bare or behind one sign. |
| Decimal.SignsMean | firmware/arduino/otis_nano_rp2040_connect/otis_adaptive_hybrid_wide.cpp:268-276 | A minus sign negates and a plus sign changes nothing. |
| Decimal.DigitsWeigh | firmware/arduino/otis_nano_rp2040_connect/otis_adaptive_hybrid_wide.cpp:104-115 | Each digit weighs ten times the digits after it. |
| Decimal.NoLeadingZero | firmware/arduino/otis_nano_rp2040_connect/otis_adaptive_hybrid_wide.cpp:296-315 | A formatted number has no leading zero, and zero is one digit. |
| Decimal.FormatDecimal | firmware/arduino/otis_nano_rp2040_connect/otis_adaptive_hybrid_wide.cpp:286-318 | Writes the terminated decimal text into the buffer when value and capacity allow, and nothing else; refuses otherwise. |
| Decimal.RoundTrip | firmware/arduino/otis_nano_rp2040_connect/otis_adaptive_hybrid_wide.h:32 | Every valid value formats within the 41-byte capacity, and its text parses back to the same limbs. |
| Decimal.ReverseDigits | firmware/arduino/otis_nano_rp2040_connect/otis_adaptive_hybrid_wide.cpp:296-310 | Repeated division by ten leaves in the scratch array exactly the decimal digits, least significant first, and never more than 39. |
| Decimal.WriteDigits | firmware/arduino/otis_nano_rp2040_connect/otis_adaptive_hybrid_wide.cpp:313-316 | Writes the digits in reading order and the terminator after the sign, leaving the rest of the buffer alone. |
| Rounding.RoundRatioIsNearest | host/otis_tools/adaptive_hybrid_policy.py:216-219 | The rounded ratio is a nearest integer to the ratio, halves away from zero. |
| Rounding.NearestIsUnique | host/otis_tools/adaptive_hybrid_policy.py:216-219 | No other integer is. |
| Rounding.RoundIsOdd | host/otis_tools/adaptive_hybrid_policy.py:216-219 | Rounding is an odd function. |
| Rounding.RoundIsMonotone | host/otis_tools/adaptive_hybrid_policy.py:216-219 | Rounding is monotone in the numerator. |
| Rounding.RoundedUnsignedRatio | firmware/arduino/otis_nano_rp2040_connect/otis_adaptive_hybrid_regulation.cpp:45-63 | Comparing the remainder with half the denominator, rounded up, gives the rounded ratio of valid operands; refuses exactly non-positive denominators, negative numerators and invalid limbs. |
| Rounding.RoundWideRatio | firmware/arduino/otis_nano_rp2040_connect/otis_adaptive_hybrid_regulation.cpp:571-582 | Signed rounding of limbs is the rounded ratio of the integers. |
| Rounding.CentreConversionIsOneRounding | host/otis_tools/adaptive_hybrid_policy.py:222-230 | Splitting the centre by the denominator before multiplying equals one rounding of the whole product, for every centre. |
| Rounding.CentreConversionIsOdd | host/otis_tools/adaptive_hybrid_policy.py:222-230 | The conversion is odd. |
| Rounding.CentreConversionIsMonotone | host/otis_tools/adaptive_hybrid_policy.py:222-230 | The conversion is monotone. |
| Rounding.CentreToPicocodesWide | firmware/arduino/otis_nano_rp2040_connect/otis_adaptive_hybrid_regulation.cpp:584-611 | The limb conversion equals the host conversion on the whole allowed centre range and refuses exactly outside it: no intermediate product overflows. |
| Rounding.WeightedResidual | firmware/arduino/otis_nano_rp2040_connect/otis_adaptive_hybrid_regulation.cpp:514-555 | The bit loop that never forms the product answers exactly when 0 <= weight <= total, total is positive and no round leaves the wide domain, and then with round(residual*weight/total), at most the residual. |
| Rounding.ThirdAlwaysFits | firmware/arduino/otis_nano_rp2040_connect/otis_adaptive_hybrid_regulation.cpp:514-555 | Up to a third of the domain every round fits, so the engine is never refused. |
| Demand.LimitedDeltaIsRatio | host/otis_tools/adaptive_hybrid_policy.py:340-374 | The host demand over exact rationals, rounded, step-limited and clamped, is the firmware integer ratio with the same limit flags. |
| Demand.RealRounding | host/otis_tools/adaptive_hybrid_policy.py:355-374 | Rounding an exact rational half away from zero is the integer rounded ratio. |
| Demand.CentreMeans | firmware/arduino/otis_nano_rp2040_connect/otis_adaptive_hybrid_regulation.cpp:190-215 | An edge weighs 36 units against its sign, a phase cycle one, and the phase is clipped to 36 either way. |
| Demand.LimitedRatioIsNearest | firmware/arduino/otis_nano_rp2040_connect/otis_adaptive_hybrid_regulation.cpp:217-252 | The ordinary delta is the movement nearest the rounded demand among those within one step and in range; the flags say exactly which limit applied. |
| Engine.CentreUnits | firmware/arduino/otis_nano_rp2040_connect/otis_adaptive_hybrid_regulation.cpp:190-215 | For every int64 edge error and phase the centre is formed without overflow and within 18*2^64+36. |
| Engine.LimitedCodes | firmware/arduino/otis_nano_rp2040_connect/otis_adaptive_hybrid_regulation.cpp:217-252 | The limb computation of an ordinary delta always succeeds and equals the integer specification. |
| Engine.NoZeroCrossCap | firmware/arduino/otis_nano_rp2040_connect/otis_adaptive_hybrid_regulation.cpp:272-312 | The limb cap equals the cap with the range headroom formed in 32 bits; its limb arithmetic never refuses. |
| Invariant.HeadroomsFitExactly | firmware/arduino/otis_nano_rp2040_connect/otis_adaptive_hybrid_regulation.cpp:308-309 | No headroom of an accepted policy overflows 32 bits if and only if its code range is at most 2^31-1 wide. |
| Invariant.CapIsExactOrNone | firmware/arduino/otis_nano_rp2040_connect/otis_adaptive_hybrid_regulation.cpp:308-311 | The 32-bit cap is the exact cap, or zero where the headroom overflows. |
| Invariant.CapIsLargest | firmware/arduino/otis_nano_rp2040_connect/otis_adaptive_hybrid_regulation.cpp:272-312 | The exact cap allows exactly the steps within step limit, budget and range that cannot carry the plant across zero. |
| Engine.ShareResidual | firmware/arduino/otis_nano_rp2040_connect/otis_adaptive_hybrid_regulation.cpp:1064-1104 | Sharing a residual between the debt tags equals the host shares; its arithmetic never refuses. |
| Engine.RegulationEngine.Init | firmware/arduino/otis_nano_rp2040_connect/otis_adaptive_hybrid_regulation.cpp:613-633 | Initialisation accepts exactly the usable policies, codes in range and non-zero epochs, and starts in the initial state. |
| Engine.RegulationEngine.Decide | firmware/arduino/otis_nano_rp2040_connect/otis_adaptive_hybrid_regulation.cpp:650-976 | The mutable engine makes exactly the specified decision and moves to exactly the specified state; the arithmetic-overflow branches are unreachable. |
| Engine.RegulationEngine.Alternates | firmware/arduino/otis_nano_rp2040_connect/otis_adaptive_hybrid_regulation.cpp:343-356 | The three-slot direction window answers as the full direction history does. |
| Engine.RegulationEngine.RememberDirection | firmware/arduino/otis_nano_rp2040_connect/otis_adaptive_hybrid_regulation.cpp:376-385 | Shifting three slots keeps the latest three of the whole history. |
| Engine.RegulationEngine.ProposeOrHold | firmware/arduino/otis_nano_rp2040_connect/otis_adaptive_hybrid_regulation.cpp:401-499 | Gates in order, and on success copies every field of the decision into the pending snapshot. |
| Engine.RegulationEngine.AdvanceMetadataRequalification | firmware/arduino/otis_nano_rp2040_connect/otis_adaptive_hybrid_regulation.cpp:137-184 | The requalification gate moves as specified. |
| Engine.RegulationEngine.DecideMaintenance | firmware/arduino/otis_nano_rp2040_connect/otis_adaptive_hybrid_regulation.cpp:834-976 | Overlap, gap, zero-containing and persistent windows, as specified. |
| Engine.RegulationEngine.NoteApplication | firmware/arduino/otis_nano_rp2040_connect/otis_adaptive_hybrid_regulation.cpp:991-1133 | Commits exactly the outstanding proposal, else fails static; debt, code, epoch, counts, directions and cadence are the specified ones, and every checked operation succeeds. |
| Engine.RegulationEngine.RejectOrExpire | firmware/arduino/otis_nano_rp2040_connect/otis_adaptive_hybrid_regulation.cpp:978-989 | Withdraws an outstanding proposal, else fails static. |
| Engine.RegulationEngine.CompleteResponse | firmware/arduino/otis_nano_rp2040_connect/otis_adaptive_hybrid_regulation.cpp:1135-1142 | Completes a response exactly when one is outstanding and fresh. |
| Engine.RegulationEngine.EnterMetadataHold | firmware/arduino/otis_nano_rp2040_connect/otis_adaptive_hybrid_regulation.cpp:1144-1151 | Freezes the gate unless a proposal is outstanding. |
| Engine.RegulationEngine.RequalifyMetadata | firmware/arduino/otis_nano_rp2040_connect/otis_adaptive_hybrid_regulation.cpp:1153-1172 | Opens the gate at a frontier unless a transaction is outstanding. |
| Engine.RegulationEngine.ActivatePolicy | firmware/arduino/otis_nano_rp2040_connect/otis_adaptive_hybrid_regulation.cpp:1174-1184 | Clears debt and persistence, or fails static on an outstanding transaction. |
| Engine.RegulationEngine.BindExactSetup | firmware/arduino/otis_nano_rp2040_connect/otis_adaptive_hybrid_regulation.cpp:635-648 | Starts the cadence at the setup application, once. |
| Invariant.StepKeeps | firmware/arduino/otis_nano_rp2040_connect/otis_adaptive_hybrid_regulation.cpp:613-1184 | Every call, with any arguments of its C types, keeps the state invariant. |
| Invariant.InitialHolds | firmware/arduino/otis_nano_rp2040_connect/otis_adaptive_hybrid_regulation.cpp:613-633 | The initial state satisfies the invariant. |
| Invariant.CentreIsBounded | firmware/arduino/otis_nano_rp2040_connect/otis_adaptive_hybrid_regulation.cpp:17 | Every centre of typed inputs is within the conversion bound. |
| Invariant.DemandExceedsDebt | firmware/arduino/otis_nano_rp2040_connect/otis_adaptive_hybrid_regulation.cpp:851-952 | A centre beyond 18 units demands more than any debt the engine can hold. |
| Invariant.ResidualDebtBounded | firmware/arduino/otis_nano_rp2040_connect/otis_adaptive_hybrid_regulation.cpp:1048-1104 | After sharing, the two debt tags have one direction, at most half a code in all, and sum to the clamped residual. |
| Invariant.MaintenanceDirection | firmware/arduino/otis_nano_rp2040_connect/otis_adaptive_hybrid_regulation.cpp:932-975 | A maintenance delta with a positive cap has the sign of its centre whatever the debt. |
| Invariant.CapBounds | firmware/arduino/otis_nano_rp2040_connect/otis_adaptive_hybrid_regulation.cpp:281-311 | The cap never lets the plant at its maximum gain cross zero, leave the range or exceed the step. |
| Safety.DecisionEffect | firmware/arduino/otis_nano_rp2040_connect/otis_adaptive_hybrid_regulation.cpp:650-976 | A decision moves no actuator; a non-zero delta is recorded whole as the one outstanding proposal, within range, cadence and budgets. |
| Safety.MaintenanceOrigin | firmware/arduino/otis_nano_rp2040_connect/otis_adaptive_hybrid_regulation.cpp:851-975 | A maintenance request comes from a second window and carries the clamped rounding of demand plus debt. |
| Safety.MaintenanceRequestIsSafe | firmware/arduino/otis_nano_rp2040_connect/otis_adaptive_hybrid_regulation.cpp:272-312 | Every maintenance request moves in the sign of its centre, stays in range, and for any gain up to the plant maximum satisfies &#124;delta&#124;*21600*gain <= nearest edge*10^12. |
| Safety.DebtIsConserved | firmware/arduino/otis_nano_rp2040_connect/otis_adaptive_hybrid_regulation.cpp:1030-1111 | Debt at application is debt at decision, and demand plus old debt equals applied codes plus new debt if and only if the cap did not bind, or bound at exactly half a code. |
| Safety.DebtIsShared | firmware/arduino/otis_nano_rp2040_connect/otis_adaptive_hybrid_regulation.cpp:1064-1104 | The frequency tag takes its share of the residual by the magnitudes of the candidates, to the nearest picocode. |
| Safety.OrdinaryClearsDebt | firmware/arduino/otis_nano_rp2040_connect/otis_adaptive_hybrid_regulation.cpp:1105-1107 | An ordinary application leaves no debt. |
| Safety.ApplicationAccepted | firmware/arduino/otis_nano_rp2040_connect/otis_adaptive_hybrid_regulation.cpp:996-1028 | An application commits exactly when it repeats the outstanding snapshot, moves, is confirmed by its consumer, and is next in epoch. |
| Safety.CallsMean | firmware/arduino/otis_nano_rp2040_connect/otis_adaptive_hybrid_regulation.cpp:978-1184 | Every other call succeeds exactly under its own conditions and changes exactly its own fields; of the refusals only two fail the engine. |
| Safety.RefusedApplication | firmware/arduino/otis_nano_rp2040_connect/otis_adaptive_hybrid_regulation.cpp:1019-1028 | A refused application changes nothing but the failure and the outstanding transaction. |
| Safety.FailStaticIsSticky | firmware/arduino/otis_nano_rp2040_connect/otis_adaptive_hybrid_regulation.cpp:663-666 | In a failed engine no call applies, moves or clears the failure. |
| Windows.StepWindow | firmware/arduino/otis_nano_rp2040_connect/otis_adaptive_hybrid_regulation.cpp:1130 | A call empties the window, keeps it, or records an observation of the present code and epoch; a committed application, an activation and both metadata calls empty it. |
| Laws.EarlyLaw | firmware/arduino/otis_nano_rp2040_connect/otis_adaptive_hybrid_regulation.cpp:655-711 | Short of agreement on code and epoch the first thing wrong is the answer; debt is kept, and only a loss of metadata empties the window. |
| Laws.QualifyLaw | firmware/arduino/otis_nano_rp2040_connect/otis_adaptive_hybrid_regulation.cpp:712-761 | Authority, settling and the requalification frontier hold in this order; debt is dropped only as the identity demands. |
| Laws.DirectLaw | firmware/arduino/otis_nano_rp2040_connect/otis_adaptive_hybrid_regulation.cpp:793-832 | A measured direct observation is answered by cadence, coherence with the phase, zero delta, both budgets and efficiency, in this order, for the ordinary delta of its centre; debt and window are cleared. |
| Laws.DegradedLaw | firmware/arduino/otis_nano_rp2040_connect/otis_adaptive_hybrid_regulation.cpp:766-791 | With the phase degraded the same gates, but coherence, answer the frequency delta; only the frequency debt is kept. |
| Laws.WaitingLaw | firmware/arduino/otis_nano_rp2040_connect/otis_adaptive_hybrid_regulation.cpp:781-831 | While the gate waits for its pair the direct paths ask for nothing and clear what a request would clear. |
| Laws.BrokenLaw | firmware/arduino/otis_nano_rp2040_connect/otis_adaptive_hybrid_regulation.cpp:853-879 | A window that overlaps the last changes nothing; one that leaves a gap starts over or, on zero, clears. |
| Laws.MaintenanceLaw | firmware/arduino/otis_nano_rp2040_connect/otis_adaptive_hybrid_regulation.cpp:880-976 | A continuing window clears on zero, is recorded as first or second, and only as second is answered by the gates, for the clamped rounding of demand and debt, with the demands recorded. |
| Laws.CoherenceExactly | firmware/arduino/otis_nano_rp2040_connect/otis_adaptive_hybrid_regulation.cpp:422-428 | At the coherence gate the answer is a coherence hold if and only if delta and phase part have strictly opposite signs. |
| Laws.MovementIsCoherent | firmware/arduino/otis_nano_rp2040_connect/otis_adaptive_hybrid_regulation.cpp:422-428 | No movement with a valid phase opposes its phase part: the phase itself on the direct paths, its share of the demand in maintenance. |
| Laws.CoherentDirectMoves | firmware/arduino/otis_nano_rp2040_connect/otis_adaptive_hybrid_regulation.cpp:422-498 | A coherent direct delta that no cadence or budget holds back is requested exactly. |
| Laws.AlternationMeans | firmware/arduino/otis_nano_rp2040_connect/otis_adaptive_hybrid_regulation.cpp:343-356 | The alternation flag means three alternating applications and a movement that reverses the last. |
| Laws.ContradictionExactly | firmware/arduino/otis_nano_rp2040_connect/otis_adaptive_hybrid_regulation.cpp:705-727 | A live engine answers a contradiction, and fails on it, exactly when an observation otherwise in order reports another code or epoch. |
| Laws.GateExactly | firmware/arduino/otis_nano_rp2040_connect/otis_adaptive_hybrid_regulation.cpp:137-184 | A measured window opens the gate exactly when it completes a pair, and otherwise is recorded as its first. |
| Laws.DecisionIsRecorded | firmware/arduino/otis_nano_rp2040_connect/otis_adaptive_hybrid_regulation.cpp:314-341 | Every decision records the sequence, time, code, window count and debt of the state it leaves. |
| Laws.ProjectionLaw | firmware/arduino/otis_nano_rp2040_connect/otis_adaptive_hybrid_regulation.cpp:775-806 | Every measured decision shows the frequency-only delta, the influence of the phase, the limits of its demand, and the gate that withheld it. |
| Laws.StepKeepsCurrent | firmware/arduino/otis_nano_rp2040_connect/otis_adaptive_hybrid_regulation.cpp:1113-1130 | A recorded window always belongs to the present code and epoch. |
| Runs.ReachableHolds | firmware/arduino/otis_nano_rp2040_connect/otis_adaptive_hybrid_regulation.cpp:613-1184 | The invariant holds after every prefix of every run. |
| Runs.ReachableIsSafe | firmware/arduino/otis_nano_rp2040_connect/otis_adaptive_hybrid_regulation.cpp:107-123 | In every reachable state: at most one transaction, debt tags of one direction within half a code, code in range, and with a budget path < 42 or 4*net > path. |
| Runs.ApplicationsAddUp | firmware/arduino/otis_nano_rp2040_connect/otis_adaptive_hybrid_regulation.cpp:1113-1120 | Code minus setup code is the sum of the applied deltas, and epoch minus setup epoch counts the applications modulo 2^64. |
| Runs.ApplicationsAreCounted | firmware/arduino/otis_nano_rp2040_connect/otis_adaptive_hybrid_regulation.cpp:1115-1122 | Application count and cumulative movement are those of the run, saturated at 32 bits, and no budget that is set is exceeded. |
| Runs.ApplicationsAreFinite | firmware/arduino/otis_nano_rp2040_connect/otis_adaptive_hybrid_regulation.cpp:358-374 | An application budget bounds the applications of any run; a movement budget bounds the codes travelled and the applications, by itself and by four times the width of the code range. |
| Runs.ApplicationsKeepCadence | firmware/arduino/otis_nano_rp2040_connect/otis_adaptive_hybrid_regulation.cpp:387-399 | Any two applications of a run were decided at least the minimum cadence apart. |
| Runs.FailStaticForGood | firmware/arduino/otis_nano_rp2040_connect/otis_adaptive_hybrid_regulation.cpp:117-123 | From the first failure on, code, epoch and application count stay and every decision asks for nothing. |
| Runs.ReachableIsCurrent | firmware/arduino/otis_nano_rp2040_connect/otis_adaptive_hybrid_regulation.cpp:1113-1130 | In every reachable state a recorded window was observed under the present code and epoch. |
| Runs.OwnReportsNeverContradict | firmware/arduino/otis_nano_rp2040_connect/otis_adaptive_hybrid_regulation.cpp:705-727 | While observations report the code and epoch the engine has, no run ever answers, or fails on, a contradiction. |
| Runs.DirectionsAreSigns | firmware/arduino/otis_nano_rp2040_connect/otis_adaptive_hybrid_regulation.cpp:376-385 | The direction history is the signs of the applied movements of the run, in order. |
| Runs.MaintenanceHasPredecessor | firmware/arduino/otis_nano_rp2040_connect/otis_adaptive_hybrid_regulation.cpp:853-930 | A maintenance request implies an earlier observation of the run with the same identity and strict sign that closed where this window opens. |
| Runs.RequestFollowsRequalification | firmware/arduino/otis_nano_rp2040_connect/otis_adaptive_hybrid_regulation.cpp:137-184 | After a metadata hold a non-zero request implies an accepted call with fresh metadata and then two contiguous windows of one identity, both past its modular frontier. |
| Runs.RunsAgree | host/otis_tools/adaptive_hybrid_policy.py:687-940 | While no call of a run is one of the differences, host and firmware agree on every state, answer and decision. |
| Agreement.StepsAgreeExactly | host/otis_tools/adaptive_hybrid_policy.py:591-940 | One call gives the same state, answer and decision on host and firmware if and only if it is not one of the listed differences, each decided before the call. |
| Agreement.DecisionsAgreeExactly | firmware/arduino/otis_nano_rp2040_connect/otis_adaptive_hybrid_regulation.cpp:655-976 | Decisions differ exactly on an exhausted sequence, a valid span that is not 600, a source gap with a zero-containing interval, or a positive cap whose headroom overflows 32 bits. |
| Agreement.WidthsAgreeExactly | firmware/arduino/otis_nano_rp2040_connect/otis_adaptive_hybrid_regulation.cpp:308-311 | Forming the headroom in 32 bits changes a decision exactly where it reaches a positive cap with more than 2^31-1 codes left. |
| Agreement.NarrowRangesAgree | firmware/arduino/otis_nano_rp2040_connect/otis_adaptive_hybrid_regulation.cpp:308-311 | With a code range at most 2^31-1 wide it never does. |
| Agreement.ConfirmationsAgreeExactly | firmware/arduino/otis_nano_rp2040_connect/otis_adaptive_hybrid_regulation.cpp:996-1028 | Confirmations differ exactly when a decision equal on the snapshot differs elsewhere, or the epoch wraps. |
| Agreement.GapIsGuarded | firmware/arduino/otis_nano_rp2040_connect/otis_adaptive_hybrid_regulation.cpp:853-878 | The gap difference arises exactly under its guard on state and observation. |
| Witness.MaintenanceHappens | firmware/arduino/otis_nano_rp2040_connect/otis_adaptive_hybrid_regulation.cpp:925-975 | A concrete run of three calls proposes and applies a maintenance movement of four codes. |
| Witness.HeadroomDifferenceHappens | firmware/arduino/otis_nano_rp2040_connect/otis_adaptive_hybrid_regulation.cpp:308-311 | Under the widest accepted policy a concrete first observation has cap 4 on the host and 0 on the firmware. |
| Witness.GapDifferenceHappens | host/otis_tools/adaptive_hybrid_policy.py:825-836 | In a concrete reachable state a gap with a zero-containing interval leaves the host with a window and the firmware with none. |
| SnapshotMachine.WordsDecode | tools/verify_pio_snapshot.py:25-41 | Each of the 15 words encodes its line of the assembly listing. |
| SnapshotMachine.PioMachine.Step | tools/verify_pio_snapshot.py:65-131 | Interpreting a word is one clock of the listing, and fails exactly on an inconsistent push. |
| SnapshotMachine.TimingPaths | tools/verify_pio_snapshot.py:221-279 | From every wait, opposite-level waits alternate with at most three instructions between. |
| SnapshotMachine.TracksOscillator | tools/verify_pio_snapshot.py:282-316 | On every stream with dwells of at least four clocks the program is never more than a fixed lag behind the oscillator. |
| SnapshotMachine.CounterCountsCycles | tools/verify_pio_snapshot.py:70-131 | On every such stream the counter is the start value less the cycles begun, modulo 2^32, but for at most one cycle whose decrement is still due within a few clocks. |
| SnapshotMachine.PushedWord | tools/verify_pio_snapshot.py:319-340 | A word pushed while PPS stays high is the counter at the sampled rise less at most one decrement. |
| SnapshotMachine.WordsFollowCounter | tools/verify_pio_snapshot.py:607-628 | Two pushed words differ as the counter did at the two rises, to within one, over any number of intervals and on any stream. |
| SnapshotMachine.BehindExactly | tools/verify_pio_snapshot.py:282-316 | The program is asked for a level it has not seen exactly at the cut rise: clock 5, after one high and four low clocks, PPS read low at clock 2. |
| SnapshotMachine.AheadIsLateLow | tools/verify_pio_snapshot.py:318-340 | An armed program counts the next cycle before taking a rise only from the third clock of a low level on, and on an uncut stream always then. |
| SnapshotMachine.SnapshotErrorExactly | tools/verify_pio_snapshot.py:607-623 | A word counts one cycle less exactly at the cut rise, one more exactly where the program is ahead, and otherwise exactly the cycles begun. |
| SnapshotMachine.SnapshotDifference | tools/verify_pio_snapshot.py:607-628 | Two pushed words differ as the cycles begun between the two rises, to within one, if and only if not both the first rise is the cut one and the second finds the program ahead; the difference is then two. |
| SnapshotMachine.CutStreamNeedsTwo | tools/verify_pio_snapshot.py:622-628 | A concrete cut stream reaches the difference of two, so the wider bound is needed there. |
| SnapshotMachine.PulseGivesOneWord | tools/verify_pio_snapshot.py:392-399 | Between two pushed words some checkpoint reads PPS low. |
| SnapshotMachine.StartupPulseIsSuppressed | tools/verify_pio_snapshot.py:384-391 | A machine started under a high PPS pushes nothing before PPS is seen low. |
| SnapshotMachine.PushFollowsRecognition | tools/verify_pio_snapshot.py:335-337 | Every push comes one clock after its recognition with the counter unchanged. |
| SnapshotMachine.InconsistencyMeans | tools/verify_pio_snapshot.py:100-131 | The interpreter raises exactly at a completed push whose recognition saw another count or was not the clock before. |
| SnapshotMachine.NeverInconsistent | tools/verify_pio_snapshot.py:100-131 | The proof failures of the interpreter are never raised in a run without stalls. |
| SnapshotMachine.SnapshotWithinDwell | tools/verify_pio_snapshot.py:318-350 | From any armed state a PPS held high is recognised within the longest dwell and pushed in the next clock. |
| SnapshotMachine.DrainedNeverStalls | tools/verify_pio_snapshot.py:448-458 | A FIFO drained each clock never stalls the program. |
| SnapshotMachine.FullFifoHolds | tools/verify_pio_snapshot.py:459-470 | A full FIFO that is not drained holds program, counter and words for good. |
| SnapshotMachine.UndrainedFills | tools/verify_pio_snapshot.py:448-458 | Undrained, every word stays in the FIFO, and the ninth push, and no earlier one, stalls. |
| SnapshotMachine.StallStays | tools/verify_pio_snapshot.py:459-470 | Once stalled, an undrained machine never changes again. |
| SnapshotMachine.NinthRiseStalls | tools/verify_pio_snapshot.py:448-470 | With eight unread words a further armed rise stalls the program within the longest dwell, and no ninth word is pushed. |
| SnapshotMachine.StoppedOscillator | tools/verify_pio_snapshot.py:401-446 | With a stopped oscillator, whatever the start and PPS, at most one tail word is pushed and the program parks within six clocks. |
| References.SessionBlocks | host/otis_tools/raw_measurement_replay.py:42-49 | The blocks are the runs of equal session numbers. |
| References.PrefixTable | host/otis_tools/raw_measurement_replay.py:54-60 | Each table entry is the longest proper border of its prefix, with fewer fallbacks than characters. |
| References.Occurrence | host/otis_tools/raw_measurement_replay.py:61-70 | Every occurrence and nothing else, overlapping ones included, ascending, in a linear number of fallbacks. |
| References.Earliest | host/otis_tools/raw_measurement_replay.py:71-78 | The forward greedy placement fails exactly without a placement and is nowhere after any placement. |
| References.Latest | host/otis_tools/raw_measurement_replay.py:79-86 | The backward greedy placement fails exactly without a placement and is nowhere before any placement. |
| References.SpreadAssigns | host/otis_tools/raw_measurement_replay.py:89-90 | Every ordered placement of the blocks is an assignment of rows to snapshots, and is recovered from it. |
| References.AssignmentPlaces | host/otis_tools/raw_measurement_replay.py:89-90 | Every assignment of rows to snapshots comes from a placement of the blocks. |
| References.OrderedReferenceAudit | host/otis_tools/raw_measurement_replay.py:33-90 | Returns an assignment exactly when there is exactly one, and that one; missing exactly without any, ambiguous exactly with several, out of range exactly on a field that is not uint32. |
| RawReplay.CheckSnapshot | host/otis_tools/raw_measurement_replay.py:157-198 | A row passes exactly when it is well formed, new, and continues its session by one with unambiguous progress, or opens a session never seen. |
| RawReplay.RawCountReplay | host/otis_tools/raw_measurement_replay.py:144-265 | The replay is exact if and only if the count rows are precisely those the adjacent snapshots of each session determine: keys, edges, flag bits and order. |
| RawReplay.CountRowMeans | host/otis_tools/raw_measurement_replay.py:205-237 | Each field and each flag bit of the expected count row, from literal conditions on the snapshots; no other bit is set. |
| RawReplay.ExactCount | host/otis_tools/raw_measurement_replay.py:228-263 | In an exact replay each interval has its count row, in order. |
| RawReplay.SessionsRun | host/otis_tools/raw_measurement_replay.py:178-190 | Snapshots of one session are adjacent and number themselves on. |
| RawReplay.CleanPairIsExact | host/otis_tools/raw_measurement_replay.py:157-262 | A clean recording of two snapshots is exact with flags 16. |
| RawReplay.PairExactly | host/otis_tools/raw_measurement_replay.py:157-262 | Two snapshots and a count row are exact if and only if both are well formed, continue one session with unambiguous progress, and the row is theirs. |
| RawReplay.IntervalMeans | host/otis_tools/raw_measurement_replay.py:199-255 | The interval bounds are the least and greatest duration the two uncertainties allow; validity and age ambiguity hold exactly under their conditions. |
| RawReplay.ReferencesMean | host/otis_tools/raw_measurement_replay.py:114-142 | Reference rows are exact exactly when all are rows of the producer, strictly ascending throughout, and assigned in one way only. |
| RawReplay.ReferenceReplay | host/otis_tools/raw_measurement_replay.py:114-142 | The reference rows are exact if and only if each is the current producer's with increasing sequence, and exactly one assignment of them to the snapshots exists. |
| AcceptedSpans.IndexSnapshots | host/otis_tools/accepted_span_replay.py:105-123 | The position index finds what a search would, and every interval sits under its closing position; the positioning errors cannot occur. |
| AcceptedSpans.PolicyMeans | host/otis_tools/accepted_span_replay.py:43-60 | The bounds of a policy lie a tolerance either side of the nominal interval, the edge bound is the whole number of edges, and a policy is refused exactly under its conditions. |
| AcceptedSpans.AdmissionIsCertain | host/otis_tools/accepted_span_replay.py:229-242 | The admission test holds exactly when every instant the uncertainties allow lies within the bounds. |
| AcceptedSpans.ExclusionIsCertain | host/otis_tools/accepted_span_replay.py:243-263 | A candidate is excluded exactly when even its latest allowed instant is too early. |
| AcceptedSpans.SpanIsClean | host/otis_tools/accepted_span_replay.py:206-218 | An accepted span has edges within the bound and bridges no faulted or unboundedly uncertain snapshot. |
| AcceptedSpans.SpanCounts | host/otis_tools/accepted_span_replay.py:201-228 | An accepted span covers as many count rows as it excluded candidates and one more, numbered on from its opening to its closing snapshot. |
| AcceptedSpans.EpochsAdvance | host/otis_tools/accepted_span_replay.py:272-287 | Within a session epochs never move backward, and spans of one epoch continue ordinal and boundary. |
| AcceptedSpans.IdentitiesAreNew | host/otis_tools/accepted_span_replay.py:143-150 | No span identity repeats, and no session or epoch is zero. |
| AcceptedSpans.OnlyFirstIsLate | host/otis_tools/accepted_span_replay.py:171-174 | Only the first span may open before the recording does. |
| AcceptedSpans.LateAttachment | host/otis_tools/accepted_span_replay.py:171-200 | A late attachment opens at no snapshot of the recording and closes at its own reference. |
| AcceptedSpans.PlaceIsUnique | host/otis_tools/accepted_span_replay.py:109-114 | In exact rows a place holds at most one snapshot. |
| AcceptedSpans.TwoEpochsReplay | host/otis_tools/accepted_span_replay.py:63-308 | A concrete recording of three clean seconds and two acceptance epochs replays exactly. |
| AcceptedSpans.VerifySpan | host/otis_tools/accepted_span_replay.py:201-271 | A span passes exactly when raw rows, identities, admission interval, exclusions, sum and endpoints all agree. |
| AcceptedSpans.AcceptSpans | host/otis_tools/accepted_span_replay.py:105-303 | The chain is accepted exactly when every span is well formed, new, exact and linked to its predecessor. |
| AcceptedSpans.ReplayAcceptedSpans | host/otis_tools/accepted_span_replay.py:63-308 | The replay is exact if and only if the policy is usable, raw rows and reference rows are exact, every span is accepted, and at least one has its raw rows in the recording; it returns those. |
| AcceptedSpans.EdgesTelescope | host/otis_tools/accepted_span_replay.py:264-271 | The sum of the modular edge counts is congruent to the endpoint counter difference. |
| AcceptedSpans.EndpointsFollowFromSum | host/otis_tools/accepted_span_replay.py:266-273 | Under any accepted policy the endpoint check can never fail once the sum check has passed. |
| AcceptedSpans.SpansAddUp | host/otis_tools/accepted_span_replay.py:272-287 | Consecutive spans of one epoch abut: their edges are those of the raw intervals covered and congruent to the outer counter difference, their ticks lie in [n*lower, n*upper], and the ordinal advances by n-1. |
| TimeDomains.ProgressIsModular | host/otis_tools/time_domains.py:245-276 | Between raw coordinates progress is the modular difference, accepted exactly below half the modulus, with a rollover exactly on a backward step. |
| TimeDomains.UnwrapDomainTicks | host/otis_tools/time_domains.py:279-295 | It succeeds exactly when every step is accepted, wide coordinates included, and returns the only unwrapping; for raw coordinates exactly when one exists; in a domain that never rolls over, exactly on ascending coordinates and unchanged. |
| TimeDomains.CaptureProjects | host/otis_tools/time_domains.py:18-34 | The bounded capture holds exactly when some non-negative congruent projection lies at most the lag behind the decision. |
| TimeDomains.LagStatementsAgree | host/otis_tools/firmware_host_contract.py:833-855 | The two statements of the relation agree on every pair of coordinates exactly when the lag is below one wrap. |
| Framing.CuttingIsExact | host/otis_tools/instrument_recorder.py:256-263 | Lines with their newlines and the rest are the stream, and none of them holds a newline. |
| Framing.StrippedIsRecord | host/otis_tools/instrument_recorder.py:261 | A line is its record followed by carriage returns only, and the record ends in none. |
| Framing.RecordIsUnique | host/otis_tools/unattended.py:952 | A line has one record. |
| Framing.LinesAreRecords | host/otis_tools/instrument_recorder.py:261-262 | Every line handed on is the record of the raw line in its place. |
| Framing.LineObserver.Observe | host/otis_tools/instrument_recorder.py:250-266 | One chunk: the lines handed on, the count, what is left over and the overflow mark, with the buffer bounded. |
| Framing.LiveSeesEveryLine | host/otis_tools/instrument_recorder.py:250-264 | However the stream is chunked and however long its lines, every newline is counted and at most 8192 bytes are kept. |
| Framing.LiveIsExact | host/otis_tools/instrument_recorder.py:250-268 | The lines handed on are those of the stream for every chunking if and only if no terminated line exceeds 8192 bytes. |
| Framing.LiveHandsOnLines | host/otis_tools/instrument_recorder.py:250-268 | However chunked and however long its lines, the parser hands on only whole lines of the stream, in order: no part of an overlong line ever appears. |
| Framing.RawRecorder.WriteRaw | host/otis_tools/instrument_recorder.py:234-248 | Whatever the short writes, the segments hold the data in order, declared sizes are real, and rotation happens at the threshold; a write without progress leaves a prefix. |
| Framing.RotationKeepsStream | host/otis_tools/instrument_recorder.py:212-248 | The concatenated segments are the concatenated chunks. |
| Framing.IterRecordLines | host/otis_tools/unattended.py:938-956 | The nested loops yield exactly what the block-by-block specification yields. |
| Framing.OfflineIsExact | host/otis_tools/unattended.py:938-956 | The yielded items are those of the stream for every blocking if and only if no terminated line exceeds 8192 bytes and the unterminated end has at most 8193. |
| Framing.YieldedStand | host/otis_tools/unattended.py:938-956 | Every record yielded offline stands in the stream before carriage returns and a newline, however blocked. |
| Framing.LiveAndOfflineAgreeExactly | host/otis_tools/unattended.py:938-956 | Live chunks and offline blocks of a stream always give the same lines if and only if no terminated line exceeds 8192 bytes. |
| Framing.FramingIsIndependent | host/otis_tools/unattended.py:938-956 | Where terminated lines fit, live lines from any chunks equal offline lines from any blocks of the rotated segments, and both equal splitting the stream. |

## Left out

- Null arguments: every argument of a C function is a value or an existing object.
- `last_reason` and `current_timestamp_s` of the engine: reported, never read by a transition.
- Reasons are constructors instead of strings, and a value with an availability flag is an option.
- The host controller is stated on values, as the specification the mutable firmware engine refines; aliasing of its Python objects is not modelled.
- The three demands of a returned decision are integers instead of limbs, so a decision with malformed limbs is not modelled.
- Engine.NoZeroCrossCap: overflow of the int32 range headroom is undefined in C++; the model takes the two's-complement wrap.
- Engine.ShareResidual: the check of the shared magnitude against the debt limit and the debt-tag sum check are proved never to fire and have no branch of their own.
- Safety.MaintenanceRequestIsSafe: speaks of the plant through its gain bound only; the plant itself is not modelled.
- Runs.ApplicationsAddUp: the epoch counts modulo 2^64, because the firmware's epoch wraps.
- SnapshotMachine.CounterCountsCycles: assumes that no push meets a full FIFO, which `DrainedNeverStalls` gives for a drained one.
- Physical oscillator and PPS waveforms and the two-flop synchronizer: replaced by arbitrary sampled streams.
- The worklist explorations of `tools/verify_pio_snapshot.py`: replaced by proofs about all states and streams.
- Reading of table fields: rows arrive parsed; record types, channels, backends, schema versions and hash identities of snapshot, count and span rows are not modelled. `References` still refuses fields outside uint32.
- RawReplay.RawCountReplay: decides the source-exact verdict; the report fields and the error texts are not modelled.
- RawReplay.ReferenceReplay: a reference row's record type, channel, edge and domain are one flag saying whether they are the producer's.
- AcceptedSpans.ReplayAcceptedSpans: the policy's fixed text fields, the policy hash and the late-attach report record are not modelled, and of the verified spans only those of an exact replay are stated.
- AcceptedSpans.IndexSnapshots: the two positioning errors are proved impossible instead of being returned.
- Framing.LineObserver.Observe: covers framing; record counts, command receipts, and the assembly of status generations from the framed lines are not modelled.
- Framing.RawRecorder.WriteRaw: a file is the bytes written to it; flushing, hashing, names and the segment closed at the end are not modelled.
- TimeDomains.UnwrapDomainTicks: a domain is its rollover rule and modulus; names, rates and provenance are not modelled.
- The live wiring of the engine, the transports, the DAC, sensors, the service loop, packaging, and the floating-point response classifier: outside the core, or only easy members.
