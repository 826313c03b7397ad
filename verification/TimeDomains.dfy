/**
 Timestamp domains: progress between two raw coordinates, unwrapping of a recorded
 sequence, and the projection of a 32-bit capture behind a 64-bit decision.
 */
module TimeDomains {
  import opened Words

  const HALF_WORD32: int := 0x8000_0000

  /** How a domain's coordinates roll over; every domain with a modulus permits rollover. */
  datatype Domain = StrictNonwrapping | ModularForward(modulus: int)

  const RAW_DOMAIN: Domain := ModularForward(WORD32)

  datatype Progress =
    | Equal | Forward(distance: int) | Rollover(distance: int)
    | NegativeTimestamp | DuplicateTimestamp | ExcessiveAmbiguousGap | IllegalBackwardMovement
    | OutsideModulus | AmbiguousWrap

  function DistanceOf(p: Progress): Option<int> {
    match p
    case Equal => Some(0)
    case Forward(d) => Some(d)
    case Rollover(d) => Some(d)
    case _ => None
  }

  function ForwardProgress(previous: int, current: int, domain: Domain, allowEqual: bool): Progress {
    if previous < 0 || current < 0 then NegativeTimestamp
    else if current == previous then
      if allowEqual then Equal else DuplicateTimestamp
    else if current > previous then
      if domain.ModularForward? && current - previous >= domain.modulus / 2 then ExcessiveAmbiguousGap
      else Forward(current - previous)
    else if domain.StrictNonwrapping? then IllegalBackwardMovement
    else if previous >= domain.modulus || current >= domain.modulus then OutsideModulus
    else
      var distance := domain.modulus - previous + current;
      if distance <= 0 || distance >= domain.modulus / 2 then AmbiguousWrap else Rollover(distance)
  }

  predicate IsRaw(x: int) {
    0 <= x < WORD32
  }

  /** Between raw coordinates progress is the modular difference, and it is accepted below half the modulus. */
  lemma ProgressIsModular(previous: int, current: int)
    requires IsRaw(previous) && IsRaw(current)
    ensures var p, d := ForwardProgress(previous, current, RAW_DOMAIN, true), (current - previous) % WORD32;
            && (DistanceOf(p).Some? <==> d < HALF_WORD32)
            && (DistanceOf(p).Some? ==> DistanceOf(p).value == d && (p.Rollover? <==> current < previous))
  {
    var lift := if current < previous then -1 else 0;
    DivUnique(current - previous, WORD32, lift, current - previous - lift * WORD32);
  }

  // ---- unwrapping ------------------------------------------------------------------------

  /** Coordinates congruent to the raw ones that never step by half the modulus or more. */
  predicate Unwrapping(raw: seq<int>, u: seq<int>) {
    && |u| == |raw| && (raw != [] ==> u[0] == raw[0])
    && (forall i :: 0 <= i < |raw| ==> (u[i] - raw[i]) % WORD32 == 0)
    && (forall i :: 0 < i < |raw| ==> 0 <= u[i] - u[i - 1] < HALF_WORD32)
  }

  predicate AllRaw(raw: seq<int>) {
    forall i :: 0 <= i < |raw| ==> IsRaw(raw[i])
  }

  /** Coordinates of a domain that never rolls over. */
  predicate Ascending(raw: seq<int>) {
    forall i :: 0 < i < |raw| ==> Rises(raw, i)
  }

  predicate Rises(raw: seq<int>, i: int)
    requires 0 < i < |raw|
  {
    0 <= raw[i - 1] <= raw[i]
  }

  /** A step the wrapping domain accepts: forward, also between wide coordinates, or one rollover of raw ones. */
  predicate Accepted(raw: seq<int>, i: int)
    requires 0 < i < |raw|
  {
    var a, b := raw[i - 1], raw[i];
    a >= 0 && b >= 0 && (0 <= b - a < HALF_WORD32 || (b < a < WORD32 && b - a + WORD32 < HALF_WORD32))
  }

  predicate AllAccepted(raw: seq<int>, n: nat)
    requires n <= |raw|
  {
    forall i :: 0 < i < n ==> Accepted(raw, i)
  }

  /** The only unwrapping of these coordinates. */
  ghost predicate OnlyUnwrapping(raw: seq<int>, u: seq<int>) {
    Unwrapping(raw, u) && forall v :: Unwrapping(raw, v) ==> v == u
  }

  /** What every unwrapping begins with. */
  ghost predicate Forced(raw: seq<int>, u: seq<int>) {
    |u| <= |raw| && Unwrapping(raw[..|u|], u) && forall v :: Unwrapping(raw, v) ==> |v| == |raw| && v[..|u|] == u
  }

  function ModulusOf(domain: Domain): int {
    if domain.ModularForward? then domain.modulus else 0
  }

  datatype Unwrapped = Ticks(unwrapped: seq<int>, wraps: nat) | Invalid(at: nat, reason: Progress)

  method UnwrapDomainTicks(raw: seq<int>, domain: Domain) returns (r: Unwrapped)
    ensures domain == RAW_DOMAIN ==>
              && (r.Ticks? <==> AllAccepted(raw, |raw|))
              && (AllRaw(raw) ==> (r.Ticks? <==> exists u :: Unwrapping(raw, u)))
              && (r.Ticks? ==> OnlyUnwrapping(raw, r.unwrapped))
              && (r.Ticks? && raw != [] ==>
                    |r.unwrapped| == |raw| && r.unwrapped[|raw| - 1] == raw[|raw| - 1] + r.wraps * WORD32)
    ensures domain == StrictNonwrapping ==>
              && (r.Ticks? <==> Ascending(raw))
              && (r.Ticks? ==> r.unwrapped == raw && r.wraps == 0)
  {
    hide Unwrapping, Forced, OnlyUnwrapping, AllRaw, Ascending, ForwardProgress, AllAccepted;
    if raw == [] {
      EmptyUnwrapping();
      return Ticks([], 0);
    }
    var unwrapped := [raw[0]];
    var wraps := 0;
    OneUnwrapping(raw);
    for i := 1 to |raw|
      invariant |unwrapped| == i && unwrapped[i - 1] == raw[i - 1] + wraps * ModulusOf(domain)
      invariant domain == RAW_DOMAIN ==> Forced(raw, unwrapped) && AllAccepted(raw, i)
      invariant domain == StrictNonwrapping ==> wraps == 0 && unwrapped == raw[..i] && Ascending(raw[..i])
    {
      var progress := ForwardProgress(raw[i - 1], raw[i], domain, true);
      if domain == RAW_DOMAIN {
        AcceptStep(raw, i);
        UnwrapStep(raw, unwrapped, wraps);
      }
      if domain == StrictNonwrapping {
        AscendStep(raw, i);
      }
      if DistanceOf(progress).None? {
        return Invalid(i, progress);
      }
      wraps := wraps + if progress.Rollover? then 1 else 0;
      unwrapped := unwrapped + [raw[i] + wraps * ModulusOf(domain)];
      assert raw[..i + 1] == raw[..i] + [raw[i]];
    }
    assert raw[..|raw|] == raw;
    if domain == RAW_DOMAIN {
      ForcedWhole(raw, unwrapped);
    }
    return Ticks(unwrapped, wraps);
  }

  lemma ForcedWhole(raw: seq<int>, u: seq<int>)
    requires Forced(raw, u) && |u| == |raw|
    ensures OnlyUnwrapping(raw, u)
  {
    assert raw[..|raw|] == raw;
    forall v | Unwrapping(raw, v) ensures v == u {
      assert v[..|raw|] == v;
    }
  }

  lemma AscendStep(raw: seq<int>, i: nat)
    requires 0 < i < |raw| && Ascending(raw[..i])
    ensures var p := ForwardProgress(raw[i - 1], raw[i], StrictNonwrapping, true);
            if DistanceOf(p).Some? then Ascending(raw[..i + 1]) && !p.Rollover? else !Ascending(raw)
  {
    var shorter, longer := raw[..i], raw[..i + 1];
    forall j | 0 < j < i ensures Rises(longer, j) {
      assert Rises(shorter, j);
    }
    assert Rises(longer, i) <==> Rises(raw, i);
  }

  lemma EmptyUnwrapping()
    ensures OnlyUnwrapping([], []) && Ascending([]) && AllAccepted([], 0)
  {
  }

  lemma OneUnwrapping(raw: seq<int>)
    requires raw != []
    ensures Forced(raw, [raw[0]]) && AllAccepted(raw, 1) && Ascending(raw[..1]) && raw[..1] == [raw[0]]
  {
    DivUnique(0, WORD32, 0, 0);
  }

  /** What progress accepts, and the distance it then reports. */
  lemma ProgressAccepts(raw: seq<int>, i: int)
    requires 0 < i < |raw|
    ensures var p := ForwardProgress(raw[i - 1], raw[i], RAW_DOMAIN, true);
            && (DistanceOf(p).Some? <==> Accepted(raw, i))
            && (DistanceOf(p).Some? ==>
                  && DistanceOf(p).value == raw[i] - raw[i - 1] + (if p.Rollover? then WORD32 else 0)
                  && 0 <= DistanceOf(p).value < HALF_WORD32)
  {
  }

  lemma AcceptStep(raw: seq<int>, i: nat)
    requires 0 < i < |raw| && AllAccepted(raw, i)
    ensures if DistanceOf(ForwardProgress(raw[i - 1], raw[i], RAW_DOMAIN, true)).Some? then AllAccepted(raw, i + 1)
            else !AllAccepted(raw, |raw|)
  {
    hide Accepted;
    ProgressAccepts(raw, i);
  }

  /** One more accepted coordinate has one unwrapping; a refused raw one has none. */
  lemma UnwrapStep(raw: seq<int>, unwrapped: seq<int>, wraps: int)
    requires 0 < |unwrapped| < |raw| && Forced(raw, unwrapped)
    requires var i := |unwrapped|; unwrapped[i - 1] == raw[i - 1] + wraps * WORD32
    ensures var i := |unwrapped|;
            var p := ForwardProgress(raw[i - 1], raw[i], RAW_DOMAIN, true);
            if DistanceOf(p).None? then AllRaw(raw) ==> forall u :: !Unwrapping(raw, u)
            else Forced(raw, unwrapped + [raw[i] + (wraps + if p.Rollover? then 1 else 0) * WORD32])
  {
    hide Unwrapping, ForwardProgress, Accepted;
    var i := |unwrapped|;
    var p := ForwardProgress(raw[i - 1], raw[i], RAW_DOMAIN, true);
    ProgressAccepts(raw, i);
    if DistanceOf(p).Some? {
      var d := DistanceOf(p).value;
      var w := wraps + if p.Rollover? then 1 else 0;
      var next := raw[i] + w * WORD32;
      assert next == unwrapped[i - 1] + d;
      DivUnique(raw[i] - raw[i - 1], WORD32, if p.Rollover? then -1 else 0, d);
      forall u | Unwrapping(raw, u) ensures |u| == |raw| && u[..i + 1] == unwrapped + [next] {
        assert u[..i][i - 1] == u[i - 1] && u[..i + 1] == u[..i] + [u[i]];
        StepIn(raw, u, i);
      }
      DivUnique(next - raw[i], WORD32, w, 0);
      ExtendUnwrapping(raw, unwrapped, i, next);
    } else if AllRaw(raw) {
      ProgressIsModular(raw[i - 1], raw[i]);
      forall u ensures !Unwrapping(raw, u) {
        if Unwrapping(raw, u) {
          StepIn(raw, u, i);
        }
      }
    }
  }

  lemma StepIn(raw: seq<int>, u: seq<int>, i: nat)
    requires Unwrapping(raw, u) && 0 < i < |raw|
    ensures |u| == |raw| && 0 <= u[i] - u[i - 1] < HALF_WORD32 && (raw[i] - raw[i - 1]) % WORD32 == u[i] - u[i - 1]
  {
    SameStep(u[i - 1], u[i], raw[i - 1], raw[i]);
  }

  lemma ExtendUnwrapping(raw: seq<int>, unwrapped: seq<int>, i: nat, next: int)
    requires 0 < i < |raw| && Unwrapping(raw[..i], unwrapped)
    requires (next - raw[i]) % WORD32 == 0 && 0 <= next - unwrapped[i - 1] < HALF_WORD32
    ensures Unwrapping(raw[..i + 1], unwrapped + [next])
  {
    var longer := unwrapped + [next];
    forall j | 0 <= j <= i ensures (longer[j] - raw[..i + 1][j]) % WORD32 == 0 {
      if j < i {
        assert (unwrapped[j] - raw[..i][j]) % WORD32 == 0;
      }
    }
  }

  /** Congruent coordinates with a step in range make the step of the raw ones. */
  lemma SameStep(u: int, v: int, a: int, b: int)
    requires (u - a) % WORD32 == 0 && (v - b) % WORD32 == 0 && 0 <= v - u < HALF_WORD32
    ensures (b - a) % WORD32 == v - u
  {
    var m, n := (u - a) / WORD32, (v - b) / WORD32;
    DivUnique(b - a, WORD32, m - n, v - u);
  }

  // ---- projection behind a decision --------------------------------------------------------

  predicate BoundedCapture(capture: int, decision: int, maximumLag: int) {
    if !(IsRaw(capture) && 0 <= decision < WORD && 0 <= maximumLag < WORD32) then false else
    var projected := decision / WORD32 * WORD32 + capture;
    var behind := if projected > decision then projected - WORD32 else projected;
    behind >= 0 && decision - behind <= maximumLag
  }

  /** A 64-bit coordinate the capture may stand for, no later than the decision and within the lag. */
  predicate Projects(p: int, capture: int, decision: int, maximumLag: int) {
    p >= 0 && (p - capture) % WORD32 == 0 && p <= decision && decision - p <= maximumLag
  }

  /** The bound holds exactly when some projection meets it. */
  lemma CaptureProjects(capture: int, decision: int, maximumLag: int)
    requires IsRaw(capture) && 0 <= decision < WORD && 0 <= maximumLag < WORD32
    ensures BoundedCapture(capture, decision, maximumLag) <==> exists p :: Projects(p, capture, decision, maximumLag)
  {
    var q := decision / WORD32;
    var projected := q * WORD32 + capture;
    var w := if projected > decision then q - 1 else q;
    var behind := w * WORD32 + capture;
    DivUnique(behind - capture, WORD32, w, 0);
    if BoundedCapture(capture, decision, maximumLag) {
      assert Projects(behind, capture, decision, maximumLag);
    }
    forall p | Projects(p, capture, decision, maximumLag) ensures p == behind {
      var n := (p - capture) / WORD32;
      DivUnique(decision - capture, WORD32, n, decision - p);
      DivUnique(decision - capture, WORD32, w, decision - behind);
    }
  }

  /** The same relation as the firmware contract states it, for the one modulus. */
  predicate ModularLagMatches(source: int, target: int, maximumLag: int) {
    var lag := (target % WORD32 - source) % WORD32;
    IsRaw(source) && 0 <= target < WORD && lag <= maximumLag && target >= lag
  }

  /** The two statements of the relation agree on every pair of coordinates exactly when the lag is below one wrap. */
  lemma LagStatementsAgree(maximumLag: int)
    ensures (forall source, target :: BoundedCapture(source, target, maximumLag)
                                      == ModularLagMatches(source, target, maximumLag))
            <==> maximumLag < WORD32
  {
    if maximumLag < WORD32 {
      forall source, target
        ensures BoundedCapture(source, target, maximumLag) == ModularLagMatches(source, target, maximumLag)
      {
        if IsRaw(source) && 0 <= target < WORD {
          LagIsDistance(source, target);
        }
      }
    } else {
      DivUnique(0, WORD32, 0, 0);
      assert ModularLagMatches(0, 0, maximumLag) && !BoundedCapture(0, 0, maximumLag);
    }
  }

  lemma LagIsDistance(source: int, target: int)
    requires IsRaw(source) && 0 <= target < WORD
    ensures var projected := target / WORD32 * WORD32 + source;
            (target % WORD32 - source) % WORD32 == target - if projected > target then projected - WORD32 else projected
  {
    var low := target % WORD32;
    if low >= source {
      DivUnique(low - source, WORD32, 0, low - source);
    } else {
      DivUnique(low - source, WORD32, -1, low - source + WORD32);
    }
  }
}
