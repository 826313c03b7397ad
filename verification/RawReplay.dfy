/**
 Replay of the raw snapshot rows against their count rows.  It keeps an index, sets and a
 state across rows; it is exact precisely when the count rows are the ones the adjacent
 snapshots of each session determine, in their order.
 */
module RawReplay {
  import opened Words
  import opened TimeDomains
  import Audit = References

  datatype Snapshot = Snapshot(session: U32, sequence: U32, referenceSequence: U32, ticks: U32, uncertainty: U32,
                               counter: U32, status: U32)

  /** A reference row; `current` says that its channel, edge and domain are the producer's. */
  datatype Reference = Reference(eventSequence: U32, current: bool, flags: U32, ticks: U32)

  datatype Count = Count(sequence: int, opening: int, closing: int, edges: int, flags: int)

  datatype Key = Key(sequence: int, opening: int, closing: int)

  const MINIMUM_INTERVAL: int := 800_000
  const MAXIMUM_INTERVAL: int := 1_200_000
  const MAXIMUM_WINDOW_EDGES: int := 133_000_000 * MAXIMUM_INTERVAL / 1_000_000
  const UNBOUNDED: int := 0xFFFF_FFFF

  function KeyOf(c: Count): Key {
    Key(c.sequence, c.opening, c.closing)
  }

  // ---- one interval ----------------------------------------------------------------------

  /** The oscillator edges between two snapshots of a down counter. */
  function Edges(before: Snapshot, row: Snapshot): int {
    (before.counter - row.counter) % WORD32
  }

  function Service(before: Snapshot, row: Snapshot): int {
    (row.ticks - before.ticks) % WORD32
  }

  predicate InGate(before: Snapshot, row: Snapshot) {
    MINIMUM_INTERVAL <= Service(before, row) <= MAXIMUM_INTERVAL
  }

  /** This interval spoils the one after it. */
  predicate Spoils(before: Snapshot, row: Snapshot) {
    !InGate(before, row) || row.status % 4 != 0
  }

  function Flag(on: bool, bit: int): int {
    if on then bit else 0
  }

  /** The count row the producer writes for one interval, its flags bit by bit. */
  function CountFrom(before: Snapshot, row: Snapshot, inhibited: bool): Count {
    var edges := Edges(before, row);
    var fault := row.status != 0;
    var ambiguous := row.counter > before.counter && edges > MAXIMUM_WINDOW_EDGES;
    var outside := !InGate(before, row) || inhibited;
    Count(row.sequence, before.ticks, row.ticks, edges,
          16 + Flag(fault || edges == 0 || ambiguous, 32) + Flag(fault || ambiguous || outside, 4096)
          + Flag(edges == 0, 512) + Flag(outside, 8))
  }

  /** One service-coordinate interval of the replay. */
  datatype Interval = Interval(session: int, opening: int, closing: int, closingTicks: int, edges: int, service: int,
                               minimum: int, maximum: int, ageAmbiguous: bool, valid: bool)

  function IntervalFrom(before: Snapshot, row: Snapshot, inhibited: bool): Interval {
    var edges, service := Edges(before, row), Service(before, row);
    Interval(row.session, before.sequence, row.sequence, row.ticks, edges, service,
             service - row.uncertainty, service + before.uncertainty,
             row.status % 4 != 0 || row.uncertainty >= HALF_WORD32 || before.uncertainty >= HALF_WORD32,
             InGate(before, row) && !inhibited && row.status == 0 && 0 < edges <= MAXIMUM_WINDOW_EDGES)
  }

  // ---- intervals of a recording ------------------------------------------------------------

  /** Snapshots `i - 1` and `i` bound an interval of one session. */
  predicate Paired(rows: seq<Snapshot>, i: int)
    requires i < |rows|
  {
    0 < i && rows[i].session == rows[i - 1].session
  }

  predicate Inhibits(rows: seq<Snapshot>, i: int)
    requires i < |rows|
  {
    Paired(rows, i) && Spoils(rows[i - 1], rows[i])
  }

  function CountAt(rows: seq<Snapshot>, i: int): Count
    requires 0 < i < |rows|
  {
    CountFrom(rows[i - 1], rows[i], Inhibits(rows, i - 1))
  }

  function IntervalAt(rows: seq<Snapshot>, i: int): Interval
    requires 0 < i < |rows|
  {
    IntervalFrom(rows[i - 1], rows[i], Inhibits(rows, i - 1))
  }

  /** The count rows of the first `n` snapshots. */
  function Counts(rows: seq<Snapshot>, n: nat): seq<Count>
    requires n <= |rows|
  {
    if n == 0 then [] else Counts(rows, n - 1) + if Paired(rows, n - 1) then [CountAt(rows, n - 1)] else []
  }

  function Intervals(rows: seq<Snapshot>, n: nat): seq<Interval>
    requires n <= |rows|
  {
    if n == 0 then [] else Intervals(rows, n - 1) + if Paired(rows, n - 1) then [IntervalAt(rows, n - 1)] else []
  }

  // ---- an exact raw replay -----------------------------------------------------------------

  /** Snapshot `i` is well formed and continues its session, or starts one never seen before. */
  predicate RowExact(rows: seq<Snapshot>, i: int)
    requires 0 <= i < |rows|
  {
    && rows[i].referenceSequence == rows[i].sequence && rows[i].status < 32
    && (rows[i].uncertainty == UNBOUNDED <==> rows[i].status / 2 % 2 == 1)
    && (forall j :: 0 <= j < i ==> (rows[j].session, rows[j].sequence) != (rows[i].session, rows[i].sequence))
    && (if Paired(rows, i) then
          rows[i].sequence == (rows[i - 1].sequence + 1) % WORD32 && Service(rows[i - 1], rows[i]) < HALF_WORD32
        else
          forall j :: 0 <= j < i ==> rows[j].session != rows[i].session)
  }

  predicate DistinctKeys(counts: seq<Count>) {
    forall i, j :: 0 <= i < j < |counts| ==> KeyOf(counts[i]) != KeyOf(counts[j])
  }

  predicate RowsExact(rows: seq<Snapshot>, n: nat)
    requires n <= |rows|
  {
    forall i :: 0 <= i < n ==> RowExact(rows, i)
  }

  /** The count rows are exactly those of the adjacent snapshots, in their order, and there is one. */
  predicate RawExact(rows: seq<Snapshot>, counts: seq<Count>) {
    RowsExact(rows, |rows|) && counts == Counts(rows, |rows|) && DistinctKeys(counts) && counts != []
  }

  function Keys(counts: seq<Count>): (r: seq<Key>)
    ensures |r| == |counts| && forall i :: 0 <= i < |counts| ==> r[i] == KeyOf(counts[i])
  {
    seq(|counts|, i requires 0 <= i < |counts| => KeyOf(counts[i]))
  }

  /** The index finds every count row under its key. */
  ghost predicate Indexes(index: map<Key, Count>, counts: seq<Count>) {
    && (forall k :: k in index <==> k in Keys(counts))
    && (forall i :: 0 <= i < |counts| ==> KeyOf(counts[i]) in index && index[KeyOf(counts[i])] == counts[i])
  }

  /** All expected counts are found with their edges and flags. */
  predicate Found(index: map<Key, Count>, expected: seq<Count>) {
    forall i :: 0 <= i < |expected| ==> KeyOf(expected[i]) in index && index[KeyOf(expected[i])] == expected[i]
  }

  lemma IndexNothing()
    ensures DistinctKeys([]) && Indexes(map[], [])
  {
  }

  /** A repeated key ends the indexing; a new one extends it. */
  lemma IndexOneMore(counts: seq<Count>, i: nat, index: map<Key, Count>)
    requires i < |counts| && DistinctKeys(counts[..i]) && Indexes(index, counts[..i])
    ensures var key := KeyOf(counts[i]);
            if key in index then !DistinctKeys(counts)
            else DistinctKeys(counts[..i + 1]) && Indexes(index[key := counts[i]], counts[..i + 1])
  {
    var key := KeyOf(counts[i]);
    var before, more := counts[..i], counts[..i + 1];
    assert forall j :: 0 <= j < i ==> more[j] == before[j] == counts[j] && KeyOf(before[j]) in Keys(before);
    if key in index {
      var j :| 0 <= j < i && Keys(before)[j] == key;
      assert KeyOf(counts[j]) == KeyOf(counts[i]);
    } else {
      assert Keys(more) == Keys(before) + [key];
    }
  }

  method IndexCounts(counts: seq<Count>) returns (index: Option<map<Key, Count>>)
    ensures index.Some? <==> DistinctKeys(counts)
    ensures index.Some? ==> Indexes(index.value, counts)
  {
    hide DistinctKeys, Indexes;
    IndexNothing();
    assert counts[..0] == [];
    var byKey: map<Key, Count> := map[];
    for i := 0 to |counts|
      invariant DistinctKeys(counts[..i]) && Indexes(byKey, counts[..i])
    {
      var key := KeyOf(counts[i]);
      IndexOneMore(counts, i, byKey);
      if key in byKey {
        return None;
      }
      byKey := byKey[key := counts[i]];
    }
    assert counts[..|counts|] == counts;
    return Some(byKey);
  }

  /** The sessions and sequence numbers of the first `n` snapshots. */
  ghost predicate Seen(rows: seq<Snapshot>, n: nat, seen: set<(U32, U32)>)
    requires n <= |rows|
  {
    forall session: U32, sequence: U32 ::
      (session, sequence) in seen
      <==> exists j :: 0 <= j < n && (rows[j].session, rows[j].sequence) == (session, sequence)
  }

  /** The sessions of the first `n` snapshots but the last one. */
  ghost predicate Closed(rows: seq<Snapshot>, n: nat, closed: set<U32>)
    requires n <= |rows|
  {
    forall session: U32 ::
      session in closed <==> (exists j :: 0 <= j < n && rows[j].session == session) && session != rows[n - 1].session
  }

  /** One snapshot against its predecessor: its own form, its place in the session, and its interval. */
  method CheckSnapshot(rows: seq<Snapshot>, i: nat, seen: set<(U32, U32)>, closed: set<U32>) returns (ok: bool)
    requires i < |rows| && RowsExact(rows, i) && Seen(rows, i, seen) && Closed(rows, i, closed)
    ensures ok <==> RowExact(rows, i)
  {
    var row := rows[i];
    if row.referenceSequence != row.sequence || row.status >= 32
       || (row.uncertainty == UNBOUNDED) != (row.status / 2 % 2 == 1) || (row.session, row.sequence) in seen {
      return false;
    }
    if i == 0 || row.session != rows[i - 1].session {
      return row.session !in closed;
    }
    var progress := ForwardProgress(rows[i - 1].ticks, row.ticks, RAW_DOMAIN, true);
    ProgressIsModular(rows[i - 1].ticks, row.ticks);
    return row.sequence == (rows[i - 1].sequence + 1) % WORD32 && DistanceOf(progress).Some?;
  }

  method RawCountReplay(rows: seq<Snapshot>, counts: seq<Count>) returns (exact: bool, intervals: seq<Interval>)
    ensures exact <==> RawExact(rows, counts)
    ensures exact ==> intervals == Intervals(rows, |rows|)
  {
    hide RowExact, Seen, Closed, IntervalFrom, CountFrom, Spoils, Keys, Indexes, Found, DistinctKeys;
    exact, intervals := false, [];
    var index := IndexCounts(counts);
    if index.None? {
      return;
    }
    var seen: set<(U32, U32)>, closed: set<U32>, consumed: set<Key> := {}, {}, {};
    var order: seq<Key> := [];
    var inhibited, matches := false, true;
    NothingRemembered(rows, index.value);
    for i := 0 to |rows|
      invariant RowsExact(rows, i) && Seen(rows, i, seen) && Closed(rows, i, closed)
      invariant intervals == Intervals(rows, i) && |intervals| == |Counts(rows, i)|
      invariant order == Keys(Counts(rows, i)) && consumed == set k | k in order
      invariant matches <==> Found(index.value, Counts(rows, i))
      invariant i > 0 ==> (inhibited <==> Inhibits(rows, i - 1))
    {
      var ok := CheckSnapshot(rows, i, seen, closed);
      if !ok {
        return;
      }
      Remembered(rows, i, seen, closed);
      var row := rows[i];
      seen := seen + {(row.session, row.sequence)};
      if i == 0 || row.session != rows[i - 1].session {
        if i > 0 {
          closed := closed + {rows[i - 1].session};
        }
        assert Counts(rows, i) + [] == Counts(rows, i);
        inhibited := false;
      } else {
        var count := CountFrom(rows[i - 1], row, inhibited);
        var key := KeyOf(count);
        OneMore(index.value, Counts(rows, i), count);
        if key in consumed {
          RepeatedKey(rows, counts, i);
          return;
        }
        consumed, order := consumed + {key}, order + [key];
        matches := matches && key in index.value && index.value[key] == count;
        intervals := intervals + [IntervalFrom(rows[i - 1], row, inhibited)];
        inhibited := Spoils(rows[i - 1], row);
      }
    }
    OrderDecides(Counts(rows, |rows|), counts, index.value);
    exact := matches && order == Keys(counts) && consumed == index.value.Keys && intervals != [];
  }

  lemma NothingRemembered(rows: seq<Snapshot>, index: map<Key, Count>)
    ensures Seen(rows, 0, {}) && Closed(rows, 0, {}) && Keys([]) == [] && Found(index, [])
  {
  }

  lemma Remembered(rows: seq<Snapshot>, i: nat, seen: set<(U32, U32)>, closed: set<U32>)
    requires i < |rows| && RowsExact(rows, i) && RowExact(rows, i) && Seen(rows, i, seen) && Closed(rows, i, closed)
    ensures RowsExact(rows, i + 1) && Seen(rows, i + 1, seen + {(rows[i].session, rows[i].sequence)})
    ensures Closed(rows, i + 1, if i == 0 || Paired(rows, i) then closed else closed + {rows[i - 1].session})
  {
  }

  lemma OneMore(index: map<Key, Count>, counts: seq<Count>, count: Count)
    ensures Keys(counts + [count]) == Keys(counts) + [KeyOf(count)]
    ensures Found(index, counts + [count])
            <==> Found(index, counts) && KeyOf(count) in index && index[KeyOf(count)] == count
  {
    var longer := counts + [count];
    assert longer[|counts|] == count;
    assert forall i :: 0 <= i < |counts| ==> longer[i] == counts[i];
  }

  lemma {:induction false} CountsBegin(rows: seq<Snapshot>, i: nat, n: nat)
    requires i <= n <= |rows|
    ensures |Counts(rows, i)| <= |Counts(rows, n)| && Counts(rows, n)[..|Counts(rows, i)|] == Counts(rows, i)
  {
    if i < n {
      CountsBegin(rows, i, n - 1);
    }
  }

  lemma RepeatedKey(rows: seq<Snapshot>, counts: seq<Count>, i: nat)
    requires i < |rows| && Paired(rows, i) && KeyOf(CountAt(rows, i)) in Keys(Counts(rows, i))
    ensures !RawExact(rows, counts)
  {
    var before := Counts(rows, i);
    CountsBegin(rows, i + 1, |rows|);
    var k :| 0 <= k < |before| && Keys(before)[k] == KeyOf(CountAt(rows, i));
    var all := Counts(rows, |rows|);
    assert Counts(rows, i + 1) == before + [CountAt(rows, i)];
    assert all[..|before| + 1][k] == before[k] && all[..|before| + 1][|before|] == CountAt(rows, i);
    assert KeyOf(all[k]) == KeyOf(all[|before|]);
  }

  /** The order and the index together say that the rows are the expected ones. */
  lemma OrderDecides(expected: seq<Count>, counts: seq<Count>, index: map<Key, Count>)
    requires Indexes(index, counts)
    ensures Found(index, expected) && Keys(expected) == Keys(counts) <==> expected == counts
    ensures Keys(expected) == Keys(counts) ==> (set k | k in Keys(expected)) == index.Keys
  {
    if Found(index, expected) && Keys(expected) == Keys(counts) {
      assert |expected| == |Keys(expected)| == |counts|;
      forall i | 0 <= i < |counts| ensures expected[i] == counts[i] {
        assert Keys(expected)[i] == Keys(counts)[i];
        assert KeyOf(expected[i]) == KeyOf(counts[i]);
      }
    }
  }

  // ---- what an exact replay says -------------------------------------------------------------

  predicate Bit(flags: int, bit: int)
    requires bit > 0
  {
    flags / bit % 2 == 1
  }

  /** The service ticks from snapshot `i - 1` to snapshot `i`. */
  function Ticks(rows: seq<Snapshot>, i: int): int
    requires 0 < i < |rows|
  {
    (rows[i].ticks - rows[i - 1].ticks) % 0x1_0000_0000
  }

  /**
   The interval that ends at `i` is outside the gate, or its session's previous one was, or closed
   with a timing status.
   */
  predicate OutsideGate(rows: seq<Snapshot>, i: int)
    requires 0 < i < |rows|
  {
    || !(800_000 <= Ticks(rows, i) <= 1_200_000)
    || (i >= 2 && rows[i - 1].session == rows[i - 2].session
        && (!(800_000 <= Ticks(rows, i - 1) <= 1_200_000) || rows[i - 1].status % 4 != 0))
  }

  /** A counter that seems to have wrapped by more edges than a gate can hold. */
  predicate Implausible(rows: seq<Snapshot>, i: int)
    requires 0 < i < |rows|
  {
    rows[i].counter > rows[i - 1].counter
    && (rows[i - 1].counter - rows[i].counter) % 0x1_0000_0000 > 159_600_000
  }

  /** The count row of an interval, field by field and bit by bit. */
  lemma CountRowMeans(rows: seq<Snapshot>, i: int)
    requires 0 < i < |rows|
    ensures var c, before, row := CountAt(rows, i), rows[i - 1], rows[i];
            && c.sequence == row.sequence && c.opening == before.ticks && c.closing == row.ticks
            && 0 <= c.edges < 0x1_0000_0000 && (before.counter - row.counter - c.edges) % 0x1_0000_0000 == 0
            && 0 <= c.flags < 8192
            && Bit(c.flags, 16)
            && (Bit(c.flags, 8) <==> OutsideGate(rows, i))
            && (Bit(c.flags, 512) <==> row.counter == before.counter)
            && (Bit(c.flags, 32) <==> row.status != 0 || row.counter == before.counter || Implausible(rows, i))
            && (Bit(c.flags, 4096) <==> row.status != 0 || Implausible(rows, i) || OutsideGate(rows, i))
            && NoOtherBit(c.flags)
  {
    hide Edges, Flag, Bit, NoOtherBit;
    var before, row := rows[i - 1], rows[i];
    EdgesAreModular(before, row);
    var outside := !InGate(before, row) || Inhibits(rows, i - 1);
    var ambiguous := row.counter > before.counter && Edges(before, row) > MAXIMUM_WINDOW_EDGES;
    assert outside <==> OutsideGate(rows, i);
    FlagBits(row.status != 0 || Edges(before, row) == 0 || ambiguous, row.status != 0 || ambiguous || outside,
             Edges(before, row) == 0, outside);
  }

  predicate NoOtherBit(flags: int) {
    && !Bit(flags, 1) && !Bit(flags, 2) && !Bit(flags, 4) && !Bit(flags, 64) && !Bit(flags, 128)
    && !Bit(flags, 256) && !Bit(flags, 1024) && !Bit(flags, 2048)
  }

  lemma FlagBits(five: bool, twelve: bool, nine: bool, three: bool)
    ensures var flags := 16 + Flag(five, 32) + Flag(twelve, 4096) + Flag(nine, 512) + Flag(three, 8);
            && 0 <= flags < 8192 && Bit(flags, 16)
            && (Bit(flags, 8) <==> three) && (Bit(flags, 512) <==> nine)
            && (Bit(flags, 32) <==> five) && (Bit(flags, 4096) <==> twelve)
            && NoOtherBit(flags)
  {
    if five {
      FlagsOf(16 + 32, twelve, nine, three);
    } else {
      FlagsOf(16, twelve, nine, three);
    }
  }

  lemma FlagsOf(low: int, twelve: bool, nine: bool, three: bool)
    requires low == 16 || low == 48
    ensures var flags := low + Flag(twelve, 4096) + Flag(nine, 512) + Flag(three, 8);
            && 0 <= flags < 8192 && Bit(flags, 16)
            && (Bit(flags, 8) <==> three) && (Bit(flags, 512) <==> nine)
            && (Bit(flags, 32) <==> low == 48) && (Bit(flags, 4096) <==> twelve)
            && NoOtherBit(flags)
  {
  }

  lemma EdgesAreModular(before: Snapshot, row: Snapshot)
    ensures var edges := Edges(before, row);
            && 0 <= edges < 0x1_0000_0000 && (before.counter - row.counter - edges) % 0x1_0000_0000 == 0
            && (edges == 0 <==> row.counter == before.counter)
            && edges == (before.counter - row.counter) % 0x1_0000_0000
  {
    var d: int := before.counter - row.counter;
    DivUnique(d - d % WORD32, WORD32, d / WORD32, 0);
    if row.counter <= before.counter {
      DivUnique(d, WORD32, 0, d);
    } else {
      DivUnique(d, WORD32, -1, d + WORD32);
    }
  }

  /** In an exact replay the interval that ends at `i` has its count row, after those of the earlier ones. */
  lemma ExactCount(rows: seq<Snapshot>, counts: seq<Count>, i: nat)
    requires RawExact(rows, counts) && i < |rows| && Paired(rows, i)
    ensures |Counts(rows, i)| < |counts| && counts[|Counts(rows, i)|] == CountAt(rows, i)
  {
    hide RowsExact, DistinctKeys, CountFrom;
    CountsBegin(rows, i + 1, |rows|);
    var before := Counts(rows, i);
    assert Counts(rows, i + 1) == before + [CountAt(rows, i)];
    assert counts[..|before| + 1][|before|] == CountAt(rows, i);
  }

  /** Snapshots of one session are adjacent and number themselves on. */
  lemma {:induction false} SessionsRun(rows: seq<Snapshot>, i: nat, j: nat)
    requires RowsExact(rows, |rows|) && i <= j < |rows| && rows[i].session == rows[j].session
    ensures forall k :: i <= k <= j ==> rows[k].session == rows[i].session
    ensures rows[j].sequence == (rows[i].sequence + (j - i)) % 0x1_0000_0000
    decreases j
  {
    if i < j {
      assert RowExact(rows, j);
      SessionsRun(rows, i, j - 1);
      ModMinus(rows[i].sequence + (j - i - 1), -1, WORD32);
    } else {
      DivUnique(rows[i].sequence, WORD32, 0, rows[i].sequence);
    }
  }

  /** A clean recording: two snapshots of one session, one gate apart, with a plausible count. */
  predicate CleanPair(a: Snapshot, b: Snapshot) {
    && a.session == b.session && b.sequence == (a.sequence + 1) % 0x1_0000_0000
    && a.referenceSequence == a.sequence && b.referenceSequence == b.sequence && a.status == 0 && b.status == 0
    && a.uncertainty < 0xFFFF_FFFF && b.uncertainty < 0xFFFF_FFFF
    && 800_000 <= (b.ticks - a.ticks) % 0x1_0000_0000 <= 1_200_000
    && 0 < (a.counter - b.counter) % 0x1_0000_0000 <= 159_600_000
  }

  /** It is exact with its own count and no flag but bit 4. */
  lemma CleanPairIsExact(a: Snapshot, b: Snapshot)
    requires CleanPair(a, b)
    ensures RawExact([a, b], [Count(b.sequence, a.ticks, b.ticks, (a.counter - b.counter) % 0x1_0000_0000, 16)])
  {
    var rows := [a, b];
    assert Counts(rows, 1) == [];
    assert Counts(rows, 2) == [CountAt(rows, 1)];
    NextDiffers(a.sequence);
    assert RowExact(rows, 0) && RowExact(rows, 1);
  }

  predicate WellFormed(row: Snapshot) {
    && row.referenceSequence == row.sequence && row.status < 0x20
    && (row.uncertainty == 0xFFFF_FFFF <==> Bit(row.status, 2))
  }

  /** Two snapshots with one count row are exact if and only if they continue one session and the row is theirs. */
  lemma PairExactly(a: Snapshot, b: Snapshot, count: Count)
    ensures RawExact([a, b], [count])
            <==> && WellFormed(a) && WellFormed(b) && a.session == b.session
                 && b.sequence == (a.sequence + 1) % 0x1_0000_0000
                 && (b.ticks - a.ticks) % 0x1_0000_0000 < 0x8000_0000
                 && count == CountAt([a, b], 1)
  {
    hide CountFrom;
    var rows := [a, b];
    PairCounts(a, b);
    NextDiffers(a.sequence);
    assert RowsExact(rows, 2) ==> RowExact(rows, 0) && RowExact(rows, 1);
  }

  lemma PairCounts(a: Snapshot, b: Snapshot)
    ensures Counts([a, b], 2) == if a.session == b.session then [CountAt([a, b], 1)] else []
  {
    hide CountFrom;
    assert Counts([a, b], 1) == [];
  }

  lemma NextDiffers(x: U32)
    ensures (x + 1) % 0x1_0000_0000 != x
  {
    if x + 1 < WORD32 {
      DivUnique(x + 1, WORD32, 0, x + 1);
    } else {
      DivUnique(x + 1, WORD32, 1, 0);
    }
  }

  /**
   A snapshot was taken at most its uncertainty before its service ticks.  An interval's
   bounds are the least and the greatest duration this allows, and it is valid exactly
   inside the gate, after an interval that spoils nothing, with no status and a plausible count.
   */
  lemma IntervalMeans(rows: seq<Snapshot>, i: int)
    requires 0 < i < |rows|
    ensures var v, before, row := IntervalAt(rows, i), rows[i - 1], rows[i];
            && (forall a, b :: 0 <= a <= before.uncertainty && 0 <= b <= row.uncertainty ==>
                                 v.minimum <= Duration(rows, i, a, b) <= v.maximum)
            && v.minimum == Duration(rows, i, 0, row.uncertainty)
               && v.maximum == Duration(rows, i, before.uncertainty, 0)
            && (v.valid <==> && !OutsideGate(rows, i) && row.status == 0
                             && 0 < (before.counter - row.counter) % 0x1_0000_0000 <= 159_600_000)
            && (v.ageAmbiguous <==> row.status % 4 != 0 || row.uncertainty >= 0x8000_0000
                                    || before.uncertainty >= 0x8000_0000)
  {
    EdgesAreModular(rows[i - 1], rows[i]);
    hide Edges;
  }

  /** The time between two snapshots taken `a` and `b` ticks before their service. */
  function Duration(rows: seq<Snapshot>, i: int, a: int, b: int): int
    requires 0 < i < |rows|
  {
    Ticks(rows, i) - b + a
  }

  // ---- the reference derivative ------------------------------------------------------------

  const REFERENCE_FLAGS: int := 16

  /** What the audit reads of the snapshots. */
  function ServiceRows(rows: seq<Snapshot>): (r: seq<Audit.Snapshot>)
    ensures |r| == |rows| && forall i :: 0 <= i < |rows| ==> r[i] == Audit.Snapshot(rows[i].session, rows[i].ticks)
  {
    seq(|rows|, i requires 0 <= i < |rows| => Audit.Snapshot(rows[i].session, rows[i].ticks))
  }

  function ReferenceTicks(refs: seq<Reference>): (r: seq<int>)
    ensures |r| == |refs| && forall i :: 0 <= i < |refs| ==> r[i] == refs[i].ticks
  {
    seq(|refs|, i requires 0 <= i < |refs| => refs[i].ticks as int)
  }

  /** Reference row `i` is the current producer's and comes after its predecessor. */
  predicate ReferenceOk(refs: seq<Reference>, i: int)
    requires 0 <= i < |refs|
  {
    refs[i].current && refs[i].flags == REFERENCE_FLAGS && (i > 0 ==> refs[i].eventSequence > refs[i - 1].eventSequence)
  }

  /** The assignments of reference rows to snapshots. */
  predicate Assigns(rows: seq<Snapshot>, refs: seq<Reference>, f: seq<int>) {
    Audit.Assignment(ServiceRows(rows), ReferenceTicks(refs), f)
  }

  /** The reference rows are well formed, and exactly one assignment of them to the snapshots exists. */
  ghost predicate ReferencesExact(rows: seq<Snapshot>, refs: seq<Reference>) {
    && (forall i :: 0 <= i < |refs| ==> ReferenceOk(refs, i))
    && exists f :: Assigns(rows, refs, f) && forall g :: Assigns(rows, refs, g) ==> g == f
  }

  method ReferenceReplay(rows: seq<Snapshot>, refs: seq<Reference>) returns (exact: bool)
    ensures exact <==> ReferencesExact(rows, refs)
  {
    hide Audit.Assignment;
    for i := 0 to |refs|
      invariant forall j :: 0 <= j < i ==> ReferenceOk(refs, j)
    {
      if (i > 0 && refs[i].eventSequence <= refs[i - 1].eventSequence) || !refs[i].current
         || refs[i].flags != REFERENCE_FLAGS {
        assert !ReferenceOk(refs, i);
        return false;
      }
    }
    var association := Audit.OrderedReferenceAudit(ServiceRows(rows), ReferenceTicks(refs));
    AuditDecides(rows, refs, association);
    if association.Refused? {
      return false;
    }
    AssociationFits(rows, refs, association.indices);
    for i := 0 to |rows|
    {
      assert rows[i].ticks == refs[association.indices[i]].ticks;
    }
    return true;
  }

  lemma AuditDecides(rows: seq<Snapshot>, refs: seq<Reference>, r: Audit.Audit)
    requires Audit.Verdict(ServiceRows(rows), ReferenceTicks(refs), r)
    ensures r.Placed? <==> exists f :: Assigns(rows, refs, f) && forall g :: Assigns(rows, refs, g) ==> g == f
    ensures r.Placed? ==> Assigns(rows, refs, r.indices)
  {
    hide Audit.Assignment;
    assert Audit.InRange(ServiceRows(rows), ReferenceTicks(refs));
    if r.Refused? && r.failure.Ambiguous? {
      var f, g :| f != g && Audit.Assignment(ServiceRows(rows), ReferenceTicks(refs), f)
                  && Audit.Assignment(ServiceRows(rows), ReferenceTicks(refs), g);
      assert Assigns(rows, refs, f) && Assigns(rows, refs, g);
    }
    if r.Placed? {
      assert Assigns(rows, refs, r.indices);
    }
  }

  lemma AssociationFits(rows: seq<Snapshot>, refs: seq<Reference>, f: seq<int>)
    requires Assigns(rows, refs, f)
    ensures |f| == |rows| && forall i :: 0 <= i < |rows| ==> 0 <= f[i] < |refs| && rows[i].ticks == refs[f[i]].ticks
  {
  }

  /** Exact reference rows are all the producer's, strictly ascending throughout, and assigned in one way only. */
  lemma ReferencesMean(rows: seq<Snapshot>, refs: seq<Reference>)
    ensures ReferencesExact(rows, refs)
            <==> && (forall i :: 0 <= i < |refs| ==> refs[i].current && refs[i].flags == 0x10)
                 && (forall i, j :: 0 <= i < j < |refs| ==> refs[i].eventSequence < refs[j].eventSequence)
                 && exists f :: Assigns(rows, refs, f) && forall g :: Assigns(rows, refs, g) ==> g == f
  {
    hide Assigns;
    if forall i, j :: 0 <= i < j < |refs| ==> refs[i].eventSequence < refs[j].eventSequence {
      forall i | 0 <= i < |refs|
        ensures ReferenceOk(refs, i) <==> refs[i].current && refs[i].flags == 0x10
      {
        var before := i - 1;
        assert i > 0 ==> refs[before].eventSequence < refs[i].eventSequence;
      }
    }
    if forall i :: 0 <= i < |refs| ==> ReferenceOk(refs, i) {
      forall i, j | 0 <= i < j < |refs| ensures refs[i].eventSequence < refs[j].eventSequence {
        Ascends(refs, i, j);
      }
    }
  }

  lemma {:induction false} Ascends(refs: seq<Reference>, i: nat, j: nat)
    requires i < j < |refs| && forall k :: 0 <= k < |refs| ==> ReferenceOk(refs, k)
    ensures refs[i].eventSequence < refs[j].eventSequence
    decreases j
  {
    assert ReferenceOk(refs, j);
    if i + 1 < j {
      Ascends(refs, i, j - 1);
    }
  }
}
