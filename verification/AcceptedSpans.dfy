/**
 Replay of the accepted spans against an exact raw replay, and what runs of accepted spans
 imply: they abut, their edges add up to the counter difference, and their time is bounded.
 */
module AcceptedSpans {
  import opened Words
  import opened TimeDomains
  import opened RawReplay

  datatype Policy = Policy(nominal: int, tolerance: int, excluded: int, intervals: int, edgeRate: int,
                           maximumTicks: int)

  datatype Bounds = Bounds(lower: int, upper: int, excluded: int, intervals: int, edges: int)

  function PolicyValues(p: Policy): Option<Bounds> {
    if p.nominal <= 0 || p.tolerance <= 0 || p.excluded < 0 || p.intervals <= 0 || p.edgeRate <= 0
      || p.maximumTicks <= 0
       || p.intervals != 1 || p.edgeRate * p.maximumTicks / 1_000_000 >= WORD32 then
      None
    else
      Some(Bounds(p.nominal - p.tolerance, p.nominal + p.tolerance, p.excluded, p.intervals,
                  p.edgeRate * p.maximumTicks / 1_000_000))
  }

  datatype Span = Span(session: U32, epoch: U32, ordinal: U32,
                       openingSequence: U32, closingSequence: U32, openingReference: U32, closingReference: U32,
                       openingTicks: U32, closingTicks: U32, firstCount: U32, lastCount: U32, records: U32,
                       excluded: U32, nominalIntervals: U32, edges: int)

  // ---- where snapshots are -----------------------------------------------------------------

  datatype Place = Place(session: U32, sequence: U32, ticks: U32)

  function PlaceOf(row: Snapshot): Place {
    Place(row.session, row.sequence, row.ticks)
  }

  function Opening(span: Span): Place {
    Place(span.session, span.openingSequence, span.openingTicks)
  }

  function Closing(span: Span): Place {
    Place(span.session, span.closingSequence, span.closingTicks)
  }

  /** The positions, among the first `n`, of the snapshots at a place. */
  function Positions(rows: seq<Snapshot>, n: nat, place: Place): (r: seq<nat>)
    requires n <= |rows|
    ensures forall k :: 0 <= k < |r| ==> r[k] < n && PlaceOf(rows[r[k]]) == place
  {
    if n == 0 then [] else Positions(rows, n - 1, place) + if PlaceOf(rows[n - 1]) == place then [n - 1] else []
  }

  function Find(positions: map<Place, seq<nat>>, place: Place): seq<nat> {
    if place in positions then positions[place] else []
  }

  /** The index holds every interval that ends before position `n` under its closing position. */
  ghost predicate ByClosing(rows: seq<Snapshot>, byClosing: map<nat, Interval>, n: nat) {
    && (forall i: nat :: i in byClosing <==> i < n && i < |rows| && Paired(rows, i))
    && (forall i: nat :: i in byClosing && 0 < i < |rows| ==> byClosing[i] == IntervalAt(rows, i))
  }

  /** The index finds what a search of the first `n` snapshots would. */
  ghost predicate ByPlace(rows: seq<Snapshot>, positions: map<Place, seq<nat>>, n: nat)
    requires n <= |rows|
  {
    forall place :: Find(positions, place) == Positions(rows, n, place)
  }

  method IndexSnapshots(rows: seq<Snapshot>, intervals: seq<Interval>)
    returns (positions: map<Place, seq<nat>>, byClosing: map<nat, Interval>)
    requires intervals == Intervals(rows, |rows|)
    ensures ByPlace(rows, positions, |rows|) && ByClosing(rows, byClosing, |rows|)
  {
    hide IntervalAt, Intervals, ByPlace, ByClosing;
    positions, byClosing := map[], map[];
    var used := 0;
    NothingIndexed(rows);
    for i := 0 to |rows|
      invariant ByPlace(rows, positions, i) && ByClosing(rows, byClosing, i)
      invariant used == |Intervals(rows, i)|
    {
      var place := PlaceOf(rows[i]);
      PlaceIndexed(rows, positions, i);
      positions := positions[place := Find(positions, place) + [i]];
      NextInterval(rows, i);
      IntervalIndexed(rows, byClosing, i);
      if Paired(rows, i) {
        assert used < |intervals|;
        byClosing := byClosing[i := intervals[used]];
        used := used + 1;
      }
    }
    assert used == |intervals|;
  }

  lemma NothingIndexed(rows: seq<Snapshot>)
    ensures ByPlace(rows, map[], 0) && ByClosing(rows, map[], 0) && Intervals(rows, 0) == []
  {
  }

  lemma PlaceIndexed(rows: seq<Snapshot>, positions: map<Place, seq<nat>>, i: nat)
    requires i < |rows| && ByPlace(rows, positions, i)
    ensures var place := PlaceOf(rows[i]);
            ByPlace(rows, positions[place := Find(positions, place) + [i]], i + 1)
  {
    var here := PlaceOf(rows[i]);
    var more := positions[here := Find(positions, here) + [i]];
    forall place ensures Find(more, place) == Positions(rows, i + 1, place) {
      assert Find(positions, place) == Positions(rows, i, place);
    }
  }

  lemma IntervalIndexed(rows: seq<Snapshot>, byClosing: map<nat, Interval>, i: nat)
    requires i < |rows| && ByClosing(rows, byClosing, i)
    ensures if Paired(rows, i) then ByClosing(rows, byClosing[i := IntervalAt(rows, i)], i + 1)
            else ByClosing(rows, byClosing, i + 1)
  {
    hide IntervalAt;
  }

  lemma NextInterval(rows: seq<Snapshot>, i: nat)
    requires i < |rows|
    ensures var before, all := Intervals(rows, i), Intervals(rows, |rows|);
            && |Intervals(rows, i + 1)| == |before| + (if Paired(rows, i) then 1 else 0)
            && (Paired(rows, i) ==> |before| < |all| && all[|before|] == IntervalAt(rows, i))
  {
    hide IntervalAt;
    IntervalsBegin(rows, i + 1, |rows|);
    if Paired(rows, i) {
      var before, all := Intervals(rows, i), Intervals(rows, |rows|);
      assert all[..|before| + 1][|before|] == IntervalAt(rows, i);
    }
  }

  lemma {:induction false} IntervalsBegin(rows: seq<Snapshot>, i: nat, n: nat)
    requires i <= n <= |rows|
    ensures |Intervals(rows, i)| <= |Intervals(rows, n)|
    ensures Intervals(rows, n)[..|Intervals(rows, i)|] == Intervals(rows, i)
  {
    if i < n {
      IntervalsBegin(rows, i, n - 1);
    }
  }

  // ---- one span ------------------------------------------------------------------------------

  /** The edges counted between snapshots `o` and `c`, one modular difference an interval. */
  function TotalEdges(rows: seq<Snapshot>, o: nat, c: nat): int
    requires o <= c < |rows|
  {
    if o == c then 0 else TotalEdges(rows, o, c - 1) + Edges(rows[c - 1], rows[c])
  }

  function Elapsed(span: Span): int {
    (span.closingTicks - span.openingTicks) % WORD32
  }

  /** The numbers of the row alone. */
  predicate Wellformed(bounds: Bounds, span: Span) {
    && 0 < span.edges <= bounds.edges && span.session != 0 && span.epoch != 0
    && span.excluded <= bounds.excluded && span.records == span.excluded + 1
    && span.nominalIntervals == bounds.intervals
  }

  predicate CleanSnapshot(row: Snapshot) {
    row.status == 0 && row.uncertainty < HALF_WORD32
  }

  /** A snapshot inside the span was certainly too early to be accepted. */
  predicate CertainlyEarly(bounds: Bounds, opening: Snapshot, row: Snapshot) {
    (row.ticks - opening.ticks) % WORD32 + opening.uncertainty < bounds.lower
  }

  /** The span is what the raw rows from `o` to `c` say. */
  predicate SpanExact(rows: seq<Snapshot>, bounds: Bounds, span: Span, o: nat, c: nat)
    requires o < |rows| && c < |rows|
  {
    && c - o == span.records
    && o < c
    && (forall p :: o < p <= c ==> Paired(rows, p))
    && (forall p :: o <= p <= c ==> CleanSnapshot(rows[p]))
    && rows[o].referenceSequence == span.openingReference && rows[c].referenceSequence == span.closingReference
    && rows[o + 1].sequence == span.firstCount && rows[c].sequence == span.lastCount
    && Elapsed(span) - rows[c].uncertainty >= bounds.lower && Elapsed(span) + rows[o].uncertainty <= bounds.upper
    && (forall p :: o < p < c ==> CertainlyEarly(bounds, rows[o], rows[p]))
    && TotalEdges(rows, o, c) == span.edges
    && (rows[o].counter - rows[c].counter) % WORD32 == span.edges
  }

  /** The counted edges of the covered intervals, unless one is missing. */
  method SumIntervals(rows: seq<Snapshot>, byClosing: map<nat, Interval>, o: nat, c: nat) returns (sum: Option<int>)
    requires o < c < |rows| && ByClosing(rows, byClosing, |rows|)
    ensures sum.Some? <==> forall p :: o < p <= c ==> Paired(rows, p)
    ensures sum.Some? ==> sum.value == TotalEdges(rows, o, c)
  {
    var total := 0;
    for p := o + 1 to c + 1
      invariant forall q :: o < q < p ==> Paired(rows, q)
      invariant total == TotalEdges(rows, o, p - 1)
    {
      if p !in byClosing {
        return None;
      }
      total := total + byClosing[p].edges;
    }
    return Some(total);
  }

  method AllClean(rows: seq<Snapshot>, o: nat, c: nat) returns (ok: bool)
    requires o < c < |rows|
    ensures ok <==> forall p :: o <= p <= c ==> CleanSnapshot(rows[p])
  {
    for p := o to c + 1
      invariant forall q :: o <= q < p ==> CleanSnapshot(rows[q])
    {
      if rows[p].status != 0 || rows[p].uncertainty >= HALF_WORD32 {
        return false;
      }
    }
    return true;
  }

  method AllEarly(rows: seq<Snapshot>, bounds: Bounds, o: nat, c: nat) returns (ok: bool)
    requires o < c < |rows|
    ensures ok <==> forall p :: o < p < c ==> CertainlyEarly(bounds, rows[o], rows[p])
  {
    for p := o + 1 to c
      invariant forall q :: o < q < p ==> CertainlyEarly(bounds, rows[o], rows[q])
    {
      if (rows[p].ticks - rows[o].ticks) % WORD32 + rows[o].uncertainty >= bounds.lower {
        return false;
      }
    }
    return true;
  }

  method VerifySpan(rows: seq<Snapshot>, byClosing: map<nat, Interval>, bounds: Bounds, span: Span, o: nat, c: nat)
    returns (ok: bool)
    requires o < |rows| && c < |rows|
    requires span.records > 0 && PlaceOf(rows[o]) == Opening(span) && PlaceOf(rows[c]) == Closing(span)
    requires ByClosing(rows, byClosing, |rows|)
    ensures ok <==> SpanExact(rows, bounds, span, o, c)
  {
    hide ByClosing, Paired, CleanSnapshot, CertainlyEarly, TotalEdges;
    if c - o != span.records {
      return false;
    }
    var sum := SumIntervals(rows, byClosing, o, c);
    if sum.None? {
      return false;
    }
    var clean := AllClean(rows, o, c);
    Indexed(rows, byClosing, o + 1);
    Indexed(rows, byClosing, c);
    if !clean
       || rows[o].referenceSequence != span.openingReference || rows[c].referenceSequence != span.closingReference
       || span.firstCount != byClosing[o + 1].closing || span.lastCount != byClosing[c].closing {
      return false;
    }
    if Elapsed(span) - rows[c].uncertainty < bounds.lower || Elapsed(span) + rows[o].uncertainty > bounds.upper {
      return false;
    }
    var early := AllEarly(rows, bounds, o, c);
    return early && sum.value == span.edges && (rows[o].counter - rows[c].counter) % WORD32 == span.edges;
  }

  lemma Indexed(rows: seq<Snapshot>, byClosing: map<nat, Interval>, p: nat)
    requires ByClosing(rows, byClosing, |rows|) && p < |rows| && Paired(rows, p)
    ensures p in byClosing && byClosing[p].closing == rows[p].sequence
  {
  }

  // ---- the chain of spans ----------------------------------------------------------------------

  /** A later span of the same epoch continues the earlier one; a later epoch of a session is greater. */
  predicate Linked(before: Span, span: Span) {
    if (before.session, before.epoch) == (span.session, span.epoch) then
      && span.ordinal == (before.ordinal + 1) % WORD32
      && (span.openingSequence, span.openingReference, span.openingTicks)
         == (before.closingSequence, before.closingReference, before.closingTicks)
    else
      before.session == span.session ==> before.epoch < span.epoch
  }

  function IdentityOf(span: Span): (U32, U32, U32) {
    (span.session, span.epoch, span.ordinal)
  }

  predicate Attached(rows: seq<Snapshot>, span: Span) {
    |Positions(rows, |rows|, Opening(span))| == 1
  }

  function OpenAt(rows: seq<Snapshot>, span: Span): nat
    requires Attached(rows, span)
  {
    Positions(rows, |rows|, Opening(span))[0]
  }

  function CloseAt(rows: seq<Snapshot>, span: Span): nat
    requires |Positions(rows, |rows|, Closing(span))| == 1
  {
    Positions(rows, |rows|, Closing(span))[0]
  }

  /** Span `k` is well formed, new, and exact; only the first may open before the recording does. */
  predicate SpanAccepted(rows: seq<Snapshot>, bounds: Bounds, spans: seq<Span>, k: int)
    requires 0 <= k < |spans|
  {
    var span := spans[k];
    && Wellformed(bounds, span)
    && (forall j :: 0 <= j < k ==> IdentityOf(spans[j]) != IdentityOf(span))
    && |Positions(rows, |rows|, Closing(span))| == 1
    && (if Attached(rows, span) then
          && SpanExact(rows, bounds, span, OpenAt(rows, span), CloseAt(rows, span))
          && (k > 0 ==> Linked(spans[k - 1], span))
        else
          k == 0 && Positions(rows, |rows|, Opening(span)) == []
          && rows[CloseAt(rows, span)].referenceSequence == span.closingReference)
  }

  predicate SpansAccepted(rows: seq<Snapshot>, bounds: Bounds, spans: seq<Span>, n: nat)
    requires n <= |spans|
  {
    forall k :: 0 <= k < n ==> SpanAccepted(rows, bounds, spans, k)
  }

  /** Raw rows, reference rows and spans are all exact, and some span has its raw rows in the recording. */
  ghost predicate ReplayExact(rows: seq<Snapshot>, refs: seq<Reference>, counts: seq<Count>, bounds: Bounds,
                              spans: seq<Span>) {
    && RawExact(rows, counts) && ReferencesExact(rows, refs) && SpansAccepted(rows, bounds, spans, |spans|)
    && exists k :: 0 <= k < |spans| && Attached(rows, spans[k])
  }

  /** A verified span with the positions of its snapshots. */
  datatype Verified = Verified(span: Span, opening: nat, closing: nat)

  /** The verified spans: all but a late attachment. */
  function VerifiedSpans(rows: seq<Snapshot>, spans: seq<Span>, n: nat): seq<Verified>
    requires n <= |spans|
    requires forall k :: 0 <= k < n ==> |Positions(rows, |rows|, Closing(spans[k]))| == 1
  {
    if n == 0 then [] else
    VerifiedSpans(rows, spans, n - 1)
    + if Attached(rows, spans[n - 1])
      then [Verified(spans[n - 1], OpenAt(rows, spans[n - 1]), CloseAt(rows, spans[n - 1]))]
      else []
  }

  /** One row of the replay: refused, or accepted with or without its own raw rows. */
  method AcceptSpan(rows: seq<Snapshot>, positions: map<Place, seq<nat>>, byClosing: map<nat, Interval>, bounds: Bounds,
                    spans: seq<Span>, k: nat, seen: set<(U32, U32, U32)>) returns (ok: bool, verified: Option<Verified>)
    requires k < |spans| && ByPlace(rows, positions, |rows|) && ByClosing(rows, byClosing, |rows|)
    requires seen == set j | 0 <= j < k :: IdentityOf(spans[j])
    ensures ok <==> SpanAccepted(rows, bounds, spans, k)
    ensures ok ==> |Positions(rows, |rows|, Closing(spans[k]))| == 1
                   && verified == (if Attached(rows, spans[k]) then
                                     Some(Verified(spans[k], OpenAt(rows, spans[k]), CloseAt(rows, spans[k])))
                                   else None)
  {
    hide SpanExact, Positions, Linked, Wellformed, ByClosing, IdentityOf, ByPlace;
    var span := spans[k];
    ok, verified := false, None;
    if IdentityOf(span) in seen {
      Repeated(rows, bounds, spans, k);
      return;
    }
    if !Wellformed(bounds, span) {
      return;
    }
    var closing, opening := Find(positions, Closing(span)), Find(positions, Opening(span));
    Looked(rows, positions, Closing(span));
    Looked(rows, positions, Opening(span));
    if |closing| != 1 {
      return;
    }
    if |opening| != 1 {
      ok := k == 0 && opening == [] && rows[closing[0]].referenceSequence == span.closingReference;
    } else {
      Records(bounds, span);
      ok := VerifySpan(rows, byClosing, bounds, span, opening[0], closing[0]);
      ok := ok && (k > 0 ==> Linked(spans[k - 1], span));
      verified := Some(Verified(span, opening[0], closing[0]));
    }
  }

  lemma Looked(rows: seq<Snapshot>, positions: map<Place, seq<nat>>, place: Place)
    requires ByPlace(rows, positions, |rows|)
    ensures Find(positions, place) == Positions(rows, |rows|, place)
  {
  }

  /** The exact verdict: no error, at least one verified span, and raw and reference rows exact. */
  method ReplayAcceptedSpans(rows: seq<Snapshot>, refs: seq<Reference>, counts: seq<Count>, policy: Policy,
                             spans: seq<Span>) returns (exact: bool, verified: seq<Verified>)
    ensures exact <==> PolicyValues(policy).Some? && ReplayExact(rows, refs, counts, PolicyValues(policy).value, spans)
    ensures exact ==> (forall k :: 0 <= k < |spans| ==> |Positions(rows, |rows|, Closing(spans[k]))| == 1)
                      && verified == VerifiedSpans(rows, spans, |spans|)
  {
    hide SpansAccepted, RawExact, ReferencesExact, PolicyValues, Positions, Attached, Intervals, VerifiedSpans;
    exact, verified := false, [];
    if PolicyValues(policy).None? || spans == [] {
      return;
    }
    var sourceExact, intervals := RawCountReplay(rows, counts);
    if !sourceExact {
      return;
    }
    var accepted;
    accepted, verified := AcceptSpans(rows, intervals, PolicyValues(policy).value, spans);
    var referenceExact := ReferenceReplay(rows, refs);
    exact := accepted && referenceExact && verified != [];
  }

  /** The chain of spans over exact raw rows. */
  method AcceptSpans(rows: seq<Snapshot>, intervals: seq<Interval>, bounds: Bounds, spans: seq<Span>)
    returns (ok: bool, verified: seq<Verified>)
    requires intervals == Intervals(rows, |rows|)
    ensures ok <==> SpansAccepted(rows, bounds, spans, |spans|)
    ensures ok ==> (forall k :: 0 <= k < |spans| ==> |Positions(rows, |rows|, Closing(spans[k]))| == 1)
                   && verified == VerifiedSpans(rows, spans, |spans|)
                   && (verified != [] <==> exists k :: 0 <= k < |spans| && Attached(rows, spans[k]))
  {
    hide SpanAccepted, Positions, ByClosing, ByPlace, Intervals, IdentityOf, Attached;
    var positions, byClosing := IndexSnapshots(rows, intervals);
    ok, verified := false, [];
    var seen: set<(U32, U32, U32)> := {};
    for k := 0 to |spans|
      invariant SpansAccepted(rows, bounds, spans, k)
      invariant seen == set j | 0 <= j < k :: IdentityOf(spans[j])
      invariant forall j :: 0 <= j < k ==> |Positions(rows, |rows|, Closing(spans[j]))| == 1
      invariant verified == VerifiedSpans(rows, spans, k)
      invariant verified != [] <==> exists j :: 0 <= j < k && Attached(rows, spans[j])
    {
      var accepted, one := AcceptSpan(rows, positions, byClosing, bounds, spans, k, seen);
      if !accepted {
        return;
      }
      seen := seen + {IdentityOf(spans[k])};
      verified := verified + if one.Some? then [one.value] else [];
    }
    ok := true;
  }

  lemma Repeated(rows: seq<Snapshot>, bounds: Bounds, spans: seq<Span>, k: nat)
    requires k < |spans| && IdentityOf(spans[k]) in set j | 0 <= j < k :: IdentityOf(spans[j])
    ensures !SpanAccepted(rows, bounds, spans, k)
  {
    hide Wellformed, SpanExact, Linked, Positions;
  }

  lemma Records(bounds: Bounds, span: Span)
    requires Wellformed(bounds, span)
    ensures span.records > 0
  {
  }

  // ---- what accepted spans imply -----------------------------------------------------------------

  /** Modular differences of a counter add up to the difference of its ends. */
  lemma {:induction false} EdgesTelescope(rows: seq<Snapshot>, o: nat, c: nat)
    requires o <= c < |rows|
    ensures TotalEdges(rows, o, c) >= 0
    ensures TotalEdges(rows, o, c) % WORD32 == (rows[o].counter - rows[c].counter) % WORD32
  {
    if o < c {
      EdgesTelescope(rows, o, c - 1);
      TelescopeStep(TotalEdges(rows, o, c - 1), rows[o].counter, rows[c - 1].counter, rows[c].counter);
    }
  }

  lemma TelescopeStep(sum: int, first: int, mid: int, last: int)
    requires sum % WORD32 == (first - mid) % WORD32
    ensures (mid - last) % WORD32 >= 0 && (sum + (mid - last) % WORD32) % WORD32 == (first - last) % WORD32
  {
    ModPlus(sum, first - mid, mid - last);
  }

  lemma ModPlus(sum: int, a: int, b: int)
    requires sum % WORD32 == a % WORD32
    ensures (sum + b % WORD32) % WORD32 == (a + b) % WORD32
  {
    ModMinus(sum, -(b % WORD32), WORD32);
    ModMinus(a, -(b % WORD32), WORD32);
    var k := b / WORD32;
    DivAddMultiple(-k, WORD32, a + b);
    assert a + b % WORD32 == -k * WORD32 + (a + b);
  }

  /** The endpoint check can never fail once the sum check has passed. */
  lemma EndpointsFollowFromSum(rows: seq<Snapshot>, policy: Policy, span: Span, o: nat, c: nat)
    requires o <= c < |rows| && PolicyValues(policy).Some? && Wellformed(PolicyValues(policy).value, span)
    requires TotalEdges(rows, o, c) == span.edges
    ensures (rows[o].counter - rows[c].counter) % WORD32 == span.edges
  {
    EdgesTelescope(rows, o, c);
    DivUnique(span.edges, WORD32, 0, span.edges);
  }

  lemma {:induction false} EdgesSplit(rows: seq<Snapshot>, o: nat, m: nat, c: nat)
    requires o <= m <= c < |rows|
    ensures TotalEdges(rows, o, c) == TotalEdges(rows, o, m) + TotalEdges(rows, m, c)
  {
    if m < c {
      EdgesSplit(rows, o, m, c - 1);
    }
  }

  function SpanEdges(spans: seq<Span>, i: nat, j: nat): int
    requires i <= j < |spans|
  {
    spans[j].edges + if i == j then 0 else SpanEdges(spans, i, j - 1)
  }

  function SpanTicks(spans: seq<Span>, i: nat, j: nat): int
    requires i <= j < |spans|
  {
    Elapsed(spans[j]) + if i == j then 0 else SpanTicks(spans, i, j - 1)
  }

  /** Spans `i` to `j` belong to one acceptance epoch. */
  predicate OneEpoch(spans: seq<Span>, i: nat, j: nat)
    requires i <= j < |spans|
  {
    forall k :: i <= k <= j ==> (spans[k].session, spans[k].epoch) == (spans[i].session, spans[i].epoch)
  }

  lemma SpanOf(rows: seq<Snapshot>, bounds: Bounds, spans: seq<Span>, k: nat)
    requires k < |spans| && SpansAccepted(rows, bounds, spans, |spans|) && Attached(rows, spans[k])
    ensures |Positions(rows, |rows|, Closing(spans[k]))| == 1
    ensures var span, o, c := spans[k], OpenAt(rows, spans[k]), CloseAt(rows, spans[k]);
            && o < c < |rows| && TotalEdges(rows, o, c) == span.edges && bounds.lower <= Elapsed(span) <= bounds.upper
            && rows[o].ticks == span.openingTicks && rows[c].ticks == span.closingTicks
  {
    hide Wellformed, Linked;
    assert SpanAccepted(rows, bounds, spans, k);
  }

  lemma NextSpan(rows: seq<Snapshot>, bounds: Bounds, spans: seq<Span>, k: nat)
    requires 0 < k < |spans| && SpansAccepted(rows, bounds, spans, |spans|)
    requires (spans[k - 1].session, spans[k - 1].epoch) == (spans[k].session, spans[k].epoch)
    ensures Attached(rows, spans[k]) && |Positions(rows, |rows|, Closing(spans[k - 1]))| == 1
    ensures OpenAt(rows, spans[k]) == CloseAt(rows, spans[k - 1])
    ensures spans[k].ordinal == (spans[k - 1].ordinal + 1) % WORD32
            && spans[k].openingTicks == spans[k - 1].closingTicks
  {
    hide Wellformed, SpanExact, Positions;
    assert SpanAccepted(rows, bounds, spans, k) && SpanAccepted(rows, bounds, spans, k - 1);
  }

  /** Spans `i` to `j` cover the raw rows from the opening of the first to the closing of the last. */
  predicate AddUp(rows: seq<Snapshot>, bounds: Bounds, spans: seq<Span>, i: nat, j: nat)
    requires i <= j < |spans|
  {
    && Attached(rows, spans[i]) && |Positions(rows, |rows|, Closing(spans[j]))| == 1
    && var o, c, n := OpenAt(rows, spans[i]), CloseAt(rows, spans[j]), j - i + 1;
       && o < c < |rows|
       && SpanEdges(spans, i, j) == TotalEdges(rows, o, c)
       && SpanEdges(spans, i, j) % WORD32 == (rows[o].counter - rows[c].counter) % WORD32
       && n * bounds.lower <= SpanTicks(spans, i, j) <= n * bounds.upper
       && SpanTicks(spans, i, j) % WORD32 == (rows[c].ticks - rows[o].ticks) % WORD32
       && spans[j].ordinal == (spans[i].ordinal + (j - i)) % WORD32
  }

  /**
   Consecutive accepted spans of one epoch abut.  Their edges add up exactly to the edges of
   the raw intervals they cover, and so to the outer counter difference; their ticks lie
   between as many lower and as many upper bounds; their ordinals count them.
   */
  lemma {:induction false} SpansAddUp(rows: seq<Snapshot>, bounds: Bounds, spans: seq<Span>, i: nat, j: nat)
    requires i <= j < |spans| && SpansAccepted(rows, bounds, spans, |spans|)
    requires OneEpoch(spans, i, j) && Attached(rows, spans[i])
    ensures AddUp(rows, bounds, spans, i, j)
    decreases j
  {
    hide SpansAccepted, AddUp, Attached;
    if i == j {
      SpanAlone(rows, bounds, spans, i);
    } else {
      SpansAddUp(rows, bounds, spans, i, j - 1);
      OneMoreAddsUp(rows, bounds, spans, i, j);
    }
  }

  lemma OneMoreAddsUp(rows: seq<Snapshot>, bounds: Bounds, spans: seq<Span>, i: nat, j: nat)
    requires i < j < |spans| && SpansAccepted(rows, bounds, spans, |spans|)
    requires (spans[j - 1].session, spans[j - 1].epoch) == (spans[j].session, spans[j].epoch)
    requires AddUp(rows, bounds, spans, i, j - 1)
    ensures AddUp(rows, bounds, spans, i, j)
  {
    hide SpansAccepted, Positions, Attached, TotalEdges, Elapsed, OpenAt, CloseAt;
    NextSpan(rows, bounds, spans, j);
    SpanOf(rows, bounds, spans, j);
    var o, m, c := OpenAt(rows, spans[i]), OpenAt(rows, spans[j]), CloseAt(rows, spans[j]);
    EdgesSplit(rows, o, m, c);
    EdgesTelescope(rows, o, c);
    OneSpanMore(SpanTicks(spans, i, j - 1), spans[j], rows[o].ticks, j - i, bounds);
    OrdinalStep(spans[i].ordinal, j - i);
  }

  lemma TicksStep(sum: int, first: int, mid: int, last: int)
    requires sum % WORD32 == (mid - first) % WORD32
    ensures (sum + (last - mid) % WORD32) % WORD32 == (last - first) % WORD32
  {
    TelescopeStep(sum, -first, -mid, -last);
  }

  lemma OrdinalStep(ordinal: int, n: int)
    ensures ((ordinal + (n - 1)) % WORD32 + 1) % WORD32 == (ordinal + n) % WORD32
  {
    ModMinus(ordinal + n - 1, -1, WORD32);
  }

  lemma SpanAlone(rows: seq<Snapshot>, bounds: Bounds, spans: seq<Span>, i: nat)
    requires i < |spans| && SpansAccepted(rows, bounds, spans, |spans|) && Attached(rows, spans[i])
    ensures AddUp(rows, bounds, spans, i, i)
  {
    hide SpansAccepted, Positions, Attached, TotalEdges, Elapsed, OpenAt, CloseAt;
    SpanOf(rows, bounds, spans, i);
    EdgesTelescope(rows, OpenAt(rows, spans[i]), CloseAt(rows, spans[i]));
    ElapsedIsModular(spans[i]);
    DivUnique(spans[i].ordinal, WORD32, 0, spans[i].ordinal);
  }

  /** The ticks of one span more. */
  lemma OneSpanMore(sum: int, span: Span, first: int, n: int, bounds: Bounds)
    requires sum % WORD32 == (span.openingTicks - first) % WORD32
    requires n * bounds.lower <= sum <= n * bounds.upper && bounds.lower <= Elapsed(span) <= bounds.upper
    ensures (sum + Elapsed(span)) % WORD32 == (span.closingTicks - first) % WORD32
    ensures (n + 1) * bounds.lower <= sum + Elapsed(span) <= (n + 1) * bounds.upper
  {
    TicksStep(sum, first, span.openingTicks, span.closingTicks);
    OneMoreBound(n, bounds.lower);
    OneMoreBound(n, bounds.upper);
  }

  lemma ElapsedIsModular(span: Span)
    ensures Elapsed(span) == (span.closingTicks - span.openingTicks) % WORD32
    ensures Elapsed(span) % WORD32 == Elapsed(span)
  {
    DivUnique(Elapsed(span), WORD32, 0, Elapsed(span));
  }

  lemma OneMoreBound(n: int, bound: int)
    ensures (n + 1) * bound == n * bound + bound
  {
  }

  // ---- what a single accepted span implies -------------------------------------------------------

  /** The numbers of a usable policy, and what makes one unusable. */
  lemma PolicyMeans(p: Policy)
    ensures PolicyValues(p).None?
            <==> || p.nominal <= 0 || p.tolerance <= 0 || p.excluded < 0 || p.intervals != 1 || p.edgeRate <= 0
                 || p.maximumTicks <= 0 || p.edgeRate * p.maximumTicks >= 0x1_0000_0000 * 1_000_000
    ensures PolicyValues(p).Some? ==>
              var b := PolicyValues(p).value;
              && b.lower + p.tolerance == p.nominal == b.upper - p.tolerance
              && b.excluded == p.excluded && b.intervals == 1 && b.edges < 0x1_0000_0000
              && b.edges * 1_000_000 <= p.edgeRate * p.maximumTicks < (b.edges + 1) * 1_000_000
  {
  }

  /** The admission test holds exactly when every instant the two uncertainties allow is within the bounds. */
  lemma AdmissionIsCertain(bounds: Bounds, span: Span, opening: Snapshot, closing: Snapshot)
    ensures Elapsed(span) - closing.uncertainty >= bounds.lower && Elapsed(span) + opening.uncertainty <= bounds.upper
            <==> forall a, b :: 0 <= a <= opening.uncertainty && 0 <= b <= closing.uncertainty ==>
                                  bounds.lower <= Apart(Elapsed(span), a, b) <= bounds.upper
  {
    assert Apart(Elapsed(span), 0, closing.uncertainty) == Elapsed(span) - closing.uncertainty;
    assert Apart(Elapsed(span), opening.uncertainty, 0) == Elapsed(span) + opening.uncertainty;
  }

  /** A candidate is excluded exactly when even its latest allowed instant is too early. */
  lemma ExclusionIsCertain(bounds: Bounds, opening: Snapshot, row: Snapshot)
    ensures CertainlyEarly(bounds, opening, row)
            <==> forall a, b :: 0 <= a <= opening.uncertainty && 0 <= b <= row.uncertainty ==>
                                  Apart(Since(opening, row), a, b) < bounds.lower
  {
    var d := Since(opening, row);
    assert Apart(d, opening.uncertainty, 0) == d + opening.uncertainty;
  }

  function Since(opening: Snapshot, row: Snapshot): int {
    (row.ticks - opening.ticks) % 0x1_0000_0000
  }

  /** The time between two snapshots `ticks` of service apart, taken `a` and `b` ticks before it. */
  function Apart(ticks: int, a: int, b: int): int {
    ticks - b + a
  }

  /** Only the first span may open before the recording does. */
  lemma OnlyFirstIsLate(rows: seq<Snapshot>, bounds: Bounds, spans: seq<Span>, k: nat)
    requires SpansAccepted(rows, bounds, spans, |spans|) && 0 < k < |spans|
    ensures Attached(rows, spans[k])
  {
    hide SpanExact, Wellformed, Linked, Positions;
    assert SpanAccepted(rows, bounds, spans, k);
  }

  /** Within a session the acceptance epoch never moves backward. */
  lemma EpochsAdvance(rows: seq<Snapshot>, bounds: Bounds, spans: seq<Span>, k: nat)
    requires SpansAccepted(rows, bounds, spans, |spans|) && 0 < k < |spans|
    requires spans[k - 1].session == spans[k].session
    ensures spans[k - 1].epoch <= spans[k].epoch
    ensures spans[k - 1].epoch == spans[k].epoch ==>
              && spans[k].ordinal == (spans[k - 1].ordinal + 1) % 0x1_0000_0000
              && spans[k].openingSequence == spans[k - 1].closingSequence
              && spans[k].openingReference == spans[k - 1].closingReference
              && spans[k].openingTicks == spans[k - 1].closingTicks
  {
    hide SpanExact, Wellformed, Positions;
    OnlyFirstIsLate(rows, bounds, spans, k);
    assert SpanAccepted(rows, bounds, spans, k);
  }

  /** Identities never repeat, and no session or epoch is zero. */
  lemma IdentitiesAreNew(rows: seq<Snapshot>, bounds: Bounds, spans: seq<Span>, j: nat, k: nat)
    requires SpansAccepted(rows, bounds, spans, |spans|) && j < k < |spans|
    ensures (spans[j].session, spans[j].epoch, spans[j].ordinal) != (spans[k].session, spans[k].epoch, spans[k].ordinal)
    ensures spans[k].session != 0 && spans[k].epoch != 0
  {
    hide SpanExact, Positions, Linked;
    assert SpanAccepted(rows, bounds, spans, k);
  }

  /**
   Over exact raw rows an accepted span covers the count rows its own fields name: as many as
   it excluded candidates and one more, numbered on from its opening to its closing snapshot.
   */
  lemma SpanCounts(rows: seq<Snapshot>, counts: seq<Count>, bounds: Bounds, spans: seq<Span>, k: nat)
    requires RawExact(rows, counts) && SpansAccepted(rows, bounds, spans, |spans|) && k < |spans|
    requires Attached(rows, spans[k])
    ensures var s := spans[k];
            && s.records == s.excluded + 1 && s.excluded <= bounds.excluded
            && s.firstCount == (s.openingSequence + 1) % 0x1_0000_0000
            && s.lastCount == s.closingSequence == (s.openingSequence + s.records) % 0x1_0000_0000
            && s.openingReference == s.openingSequence && s.closingReference == s.closingSequence
  {
    hide Positions, DistinctKeys, Counts, RowExact, Linked;
    assert SpanAccepted(rows, bounds, spans, k);
    var o, c := OpenAt(rows, spans[k]), CloseAt(rows, spans[k]);
    assert PlaceOf(rows[o]) == Opening(spans[k]) && PlaceOf(rows[c]) == Closing(spans[k]);
    assert Paired(rows, o + 1);
    SessionsRun(rows, o, c);
    SessionsRun(rows, o, o + 1);
    OwnReference(rows, o);
    OwnReference(rows, c);
  }

  lemma OwnReference(rows: seq<Snapshot>, i: nat)
    requires RowsExact(rows, |rows|) && i < |rows|
    ensures rows[i].referenceSequence == rows[i].sequence
  {
    assert RowExact(rows, i);
  }

  /** An accepted span has edges, and bridges no faulted and no unboundedly uncertain snapshot. */
  lemma SpanIsClean(rows: seq<Snapshot>, bounds: Bounds, spans: seq<Span>, k: nat)
    requires SpansAccepted(rows, bounds, spans, |spans|) && k < |spans| && Attached(rows, spans[k])
    ensures 0 < spans[k].edges <= bounds.edges && spans[k].nominalIntervals == bounds.intervals
    ensures |Positions(rows, |rows|, Closing(spans[k]))| == 1
    ensures forall p :: OpenAt(rows, spans[k]) <= p <= CloseAt(rows, spans[k]) ==>
                          rows[p].status == 0 && rows[p].uncertainty < 0x8000_0000
  {
    hide Positions, Linked;
    assert SpanAccepted(rows, bounds, spans, k);
    var o, c := OpenAt(rows, spans[k]), CloseAt(rows, spans[k]);
    assert forall p :: o <= p <= c ==> CleanSnapshot(rows[p]);
  }

  /** A late attachment is the first span, opens at no snapshot of the recording, and closes at its own reference. */
  lemma LateAttachment(rows: seq<Snapshot>, bounds: Bounds, spans: seq<Span>, k: nat)
    requires SpansAccepted(rows, bounds, spans, |spans|) && k < |spans| && !Attached(rows, spans[k])
    ensures k == 0 && |Positions(rows, |rows|, Closing(spans[k]))| == 1
    ensures rows[CloseAt(rows, spans[k])].referenceSequence == spans[k].closingReference
    ensures forall p :: 0 <= p < |rows| ==> PlaceOf(rows[p]) != Opening(spans[k])
  {
    hide SpanExact, Wellformed, Linked, Positions;
    assert SpanAccepted(rows, bounds, spans, k);
    forall p | 0 <= p < |rows| ensures PlaceOf(rows[p]) != Opening(spans[k]) {
      AllFound(rows, |rows|, p);
    }
  }

  /** The search misses nothing. */
  lemma {:induction false} AllFound(rows: seq<Snapshot>, n: nat, p: nat)
    requires p < n <= |rows|
    ensures p in Positions(rows, n, PlaceOf(rows[p]))
  {
    if p < n - 1 {
      AllFound(rows, n - 1, p);
    }
  }

  /** In exact rows a place holds one snapshot at most. */
  lemma PlaceIsUnique(rows: seq<Snapshot>, place: Place)
    requires RowsExact(rows, |rows|)
    ensures |Positions(rows, |rows|, place)| <= 1
  {
    hide RowsExact, Positions;
    PositionsAscend(rows, |rows|, place);
    var found := Positions(rows, |rows|, place);
    if |found| > 1 {
      PlacesDiffer(rows, found[0], found[1]);
      assert false;
    }
  }

  lemma PlacesDiffer(rows: seq<Snapshot>, i: nat, j: nat)
    requires RowsExact(rows, |rows|) && i < j < |rows|
    ensures PlaceOf(rows[i]) != PlaceOf(rows[j])
  {
    assert RowExact(rows, j);
  }

  predicate Ascending(r: seq<nat>) {
    forall i, j :: 0 <= i < j < |r| ==> r[i] < r[j]
  }

  lemma {:induction false} PositionsAscend(rows: seq<Snapshot>, n: nat, place: Place)
    requires n <= |rows|
    ensures Ascending(Positions(rows, n, place))
  {
    if n > 0 {
      PositionsAscend(rows, n - 1, place);
      AscendMore(Positions(rows, n - 1, place), n - 1);
    }
  }

  lemma AscendMore(r: seq<nat>, next: nat)
    requires Ascending(r) && forall k :: 0 <= k < |r| ==> r[k] < next
    ensures Ascending(r + [next]) && Ascending(r + [])
  {
    assert r + [] == r;
  }

  // ---- an exact recording ------------------------------------------------------------------------

  function Second(n: U32): Snapshot
    requires 1 <= n <= 3
  {
    Snapshot(1, n + 4, n + 4, n * 1_000_000, 0, 110_000_000 - n * 10_000_000, 0)
  }

  function OneSecond(n: U32, epoch: U32): Span
    requires 1 <= n <= 2
  {
    Span(1, epoch, 0, n + 4, n + 5, n + 4, n + 5, n * 1_000_000, n * 1_000_000 + 1_000_000, n + 5, n + 5, 1, 0, 1,
         10_000_000)
  }

  const THREE: seq<Snapshot> := [Second(1), Second(2), Second(3)]
  const REFERENCES: seq<Reference> :=
    [Reference(1, true, 16, 1_000_000), Reference(2, true, 16, 2_000_000), Reference(3, true, 16, 3_000_000)]
  const COUNTS: seq<Count> :=
    [Count(6, 1_000_000, 2_000_000, 10_000_000, 16), Count(7, 2_000_000, 3_000_000, 10_000_000, 16)]
  const EPOCHS: seq<Span> := [OneSecond(1, 1), OneSecond(2, 2)]
  const POLICY: Policy := Policy(1_000_000, 100, 0, 1, 133_000_000, 1_200_000)

  /** Three clean seconds, the second of which opens a new acceptance epoch, replay exactly. */
  lemma TwoEpochsReplay()
    ensures PolicyValues(POLICY).Some? && ReplayExact(THREE, REFERENCES, COUNTS, PolicyValues(POLICY).value, EPOCHS)
  {
    hide RawExact, ReferencesExact, SpanAccepted, Attached;
    ThreeAreRaw();
    ThreeAreReferenced();
    FirstAccepted();
    SecondAccepted();
  }

  lemma ThreeAreRaw()
    ensures RawExact(THREE, COUNTS)
  {
    assert Counts(THREE, 1) == [];
    assert Counts(THREE, 2) == [CountAt(THREE, 1)];
    assert Counts(THREE, 3) == [CountAt(THREE, 1), CountAt(THREE, 2)];
    assert RowExact(THREE, 0) && RowExact(THREE, 1) && RowExact(THREE, 2);
  }

  lemma ThreeAreReferenced()
    ensures ReferencesExact(THREE, REFERENCES)
  {
    var f := [0, 1, 2];
    assert Assigns(THREE, REFERENCES, f);
    forall g | Assigns(THREE, REFERENCES, g) ensures g == f {
      AssociationFits(THREE, REFERENCES, g);
      assert g[0] == 0 && g[1] == 1 && g[2] == 2;
    }
  }

  lemma Places(n: U32, place: Place)
    requires 1 <= n <= 3 && place == Place(1, n + 4, n * 1_000_000)
    ensures Positions(THREE, 3, place) == [n - 1]
  {
    assert Positions(THREE, 1, place) == if n == 1 then [0] else [];
    assert Positions(THREE, 2, place) == if n <= 2 then [n - 1] else [];
  }

  lemma FirstAccepted()
    ensures var b := PolicyValues(POLICY).value;
            SpanAccepted(THREE, b, EPOCHS, 0) && Attached(THREE, EPOCHS[0])
  {
    hide Positions;
    Places(1, Opening(EPOCHS[0]));
    Places(2, Closing(EPOCHS[0]));
    assert TotalEdges(THREE, 0, 1) == 10_000_000;
  }

  lemma SecondAccepted()
    ensures var b := PolicyValues(POLICY).value;
            SpanAccepted(THREE, b, EPOCHS, 1) && Attached(THREE, EPOCHS[1])
  {
    hide Positions;
    Places(2, Opening(EPOCHS[1]));
    Places(3, Closing(EPOCHS[1]));
    assert TotalEdges(THREE, 1, 2) == 10_000_000;
  }
}
