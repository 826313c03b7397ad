/**
 The audit of the reference rows of a recording: every snapshot must have one reference
 row, snapshots of one session consecutive rows, and sessions must follow one another.
 The audit succeeds exactly when that assignment exists and is unique, and returns it.
 Its work is linear in the pattern and the text.
 */
module References {
  import opened Words

  datatype Snapshot = Snapshot(session: int, ticks: int)

  datatype Failure = OutOfRange | Missing | Ambiguous

  datatype Audit = Placed(indices: seq<int>) | Refused(failure: Failure)

  // ---- what an audit means ---------------------------------------------------------------

  predicate IsU32(x: int) {
    0 <= x < WORD32
  }

  predicate InRange(rows: seq<Snapshot>, refs: seq<int>) {
    && (forall i :: 0 <= i < |rows| ==> IsU32(rows[i].session) && IsU32(rows[i].ticks))
    && (forall i :: 0 <= i < |refs| ==> IsU32(refs[i]))
  }

  /** Snapshot `i` starts a session. */
  predicate Opens(rows: seq<Snapshot>, i: nat)
    requires i < |rows|
  {
    i == 0 || rows[i].session != rows[i - 1].session
  }

  /** Snapshot `i` may take its reference row after the one of its predecessor. */
  predicate Follows(rows: seq<Snapshot>, f: seq<int>, i: nat)
    requires i < |rows| && i < |f|
  {
    i == 0 || if Opens(rows, i) then f[i] > f[i - 1] else f[i] == f[i - 1] + 1
  }

  /** A reference row with the right ticks for every snapshot, in order and consecutive within a session. */
  predicate Assignment(rows: seq<Snapshot>, refs: seq<int>, f: seq<int>) {
    && |f| == |rows|
    && (forall i :: 0 <= i < |rows| ==> 0 <= f[i] < |refs| && refs[f[i]] == rows[i].ticks)
    && (forall i :: 0 <= i < |rows| ==> Follows(rows, f, i))
  }

  // ---- blocks ----------------------------------------------------------------------------

  /** The ticks of the sessions, one block for each run of equal session numbers. */
  function BlocksOf(rows: seq<Snapshot>): (blocks: seq<seq<int>>)
    ensures |rows| > 0 ==> |blocks| > 0
    ensures forall k :: 0 <= k < |blocks| ==> |blocks[k]| > 0
  {
    if rows == [] then [] else
    var n := |rows| - 1;
    var before := BlocksOf(rows[..n]);
    if Opens(rows, n) then before + [[rows[n].ticks]] else Extended(before, rows[n].ticks)
  }

  function Extended(blocks: seq<seq<int>>, ticks: int): (r: seq<seq<int>>)
    requires |blocks| > 0
    ensures |r| == |blocks| && r[..|r| - 1] == blocks[..|r| - 1] && r[|r| - 1] == blocks[|r| - 1] + [ticks]
  {
    blocks[..|blocks| - 1] + [blocks[|blocks| - 1] + [ticks]]
  }

  method SessionBlocks(rows: seq<Snapshot>) returns (blocks: seq<seq<int>>)
    ensures blocks == BlocksOf(rows)
  {
    hide BlocksOf;
    NoRows();
    assert rows[..0] == [];
    blocks := [];
    var previous := None;
    for i := 0 to |rows|
      invariant blocks == BlocksOf(rows[..i])
      invariant previous == if i == 0 then None else Some(rows[i - 1].session)
    {
      OneRow(rows, i);
      var session := rows[i].session;
      if Some(session) != previous {
        blocks := blocks + [[]];
      }
      blocks := Extended(blocks, rows[i].ticks);
      previous := Some(session);
    }
    assert rows[..|rows|] == rows;
  }

  lemma NoRows()
    ensures BlocksOf([]) == []
  {
  }

  lemma OneRow(rows: seq<Snapshot>, i: nat)
    requires i < |rows|
    ensures var before := BlocksOf(rows[..i]);
            BlocksOf(rows[..i + 1]) == Extended(if Opens(rows, i) then before + [[]] else before, rows[i].ticks)
  {
    assert rows[..i + 1][..i] == rows[..i];
    assert Opens(rows[..i + 1], i) == Opens(rows, i);
    var before := BlocksOf(rows[..i]);
    assert (before + [[]])[..|before|] == before && [] + [rows[i].ticks] == [rows[i].ticks];
  }

  // ---- placements of blocks ----------------------------------------------------------------

  predicate OccursAt(text: seq<int>, pattern: seq<int>, i: int) {
    0 <= i <= i + |pattern| <= |text| && text[i..i + |pattern|] == pattern
  }

  /** The blocks occur at these starts, in order and without overlap. */
  predicate Placement(text: seq<int>, blocks: seq<seq<int>>, starts: seq<int>) {
    && |starts| == |blocks|
    && (forall k :: 0 <= k < |blocks| ==> OccursAt(text, blocks[k], starts[k]))
    && (forall k :: 0 < k < |blocks| ==> starts[k - 1] + |blocks[k - 1]| <= starts[k])
  }

  function Range(start: int, length: nat): (r: seq<int>)
    ensures |r| == length && forall i :: 0 <= i < length ==> r[i] == start + i
  {
    seq(length, i => start + i)
  }

  /** The text positions of the blocks, block by block. */
  function Spread(blocks: seq<seq<int>>, starts: seq<int>): seq<int>
    requires |starts| == |blocks|
  {
    if blocks == [] then [] else
    var n := |blocks| - 1;
    Spread(blocks[..n], starts[..n]) + Range(starts[n], |blocks[n]|)
  }

  /** Where an assignment puts the first snapshot of each session. */
  function StartsOf(rows: seq<Snapshot>, f: seq<int>): seq<int>
    requires |f| == |rows|
  {
    if rows == [] then [] else
    var n := |rows| - 1;
    StartsOf(rows[..n], f[..n]) + if Opens(rows, n) then [f[n]] else []
  }

  lemma SpreadLast(blocks: seq<seq<int>>, starts: seq<int>)
    requires |starts| == |blocks| > 0 && |blocks[|blocks| - 1]| > 0
    ensures var r, n := Spread(blocks, starts), |blocks| - 1;
            |r| > 0 && r[|r| - 1] == starts[n] + |blocks[n]| - 1
  {
  }

  lemma SpreadExtended(blocks: seq<seq<int>>, starts: seq<int>, ticks: int)
    requires |starts| == |blocks| > 0
    ensures var n := |blocks| - 1;
            Spread(Extended(blocks, ticks), starts) == Spread(blocks, starts) + [starts[n] + |blocks[n]|]
  {
    var n := |blocks| - 1;
    assert Range(starts[n], |blocks[n]| + 1) == Range(starts[n], |blocks[n]|) + [starts[n] + |blocks[n]|];
  }

  lemma ExtendedPlacement(text: seq<int>, blocks: seq<seq<int>>, starts: seq<int>, ticks: int)
    requires |blocks| > 0
    ensures var n := |blocks| - 1;
            Placement(text, Extended(blocks, ticks), starts)
            <==> Placement(text, blocks, starts) && starts[n] + |blocks[n]| < |text|
                 && text[starts[n] + |blocks[n]|] == ticks
  {
    var n := |blocks| - 1;
    var longer := Extended(blocks, ticks);
    assert forall k :: 0 <= k < n ==> longer[k] == longer[..n][k] == blocks[..n][k] == blocks[k];
    if |starts| == |blocks| {
      OccursLonger(text, blocks[n], starts[n], ticks);
    }
  }

  lemma OccursLonger(text: seq<int>, pattern: seq<int>, i: int, ticks: int)
    ensures OccursAt(text, pattern + [ticks], i)
            <==> OccursAt(text, pattern, i) && i + |pattern| < |text| && text[i + |pattern|] == ticks
  {
    var m := |pattern|;
    if 0 <= i && i + m + 1 <= |text| {
      assert text[i..i + m + 1] == text[i..i + m] + [text[i + m]];
      if text[i..i + m + 1] == pattern + [ticks] {
        assert (pattern + [ticks])[..m] == pattern && (pattern + [ticks])[m] == ticks;
        assert (text[i..i + m] + [text[i + m]])[m] == text[i + m];
      }
    }
  }

  lemma AppendedPlacement(text: seq<int>, blocks: seq<seq<int>>, starts: seq<int>, ticks: int)
    requires |starts| == |blocks| + 1
    ensures var n := |blocks|;
            Placement(text, blocks + [[ticks]], starts)
            <==> Placement(text, blocks, starts[..n]) && 0 <= starts[n] < |text| && text[starts[n]] == ticks
                 && (n > 0 ==> starts[n - 1] + |blocks[n - 1]| <= starts[n])
  {
    var n := |blocks|;
    OccursLonger(text, [], starts[n], ticks);
    assert [] + [ticks] == [ticks];
    var longer := blocks + [[ticks]];
    if Placement(text, longer, starts) {
      forall k | 0 <= k < n ensures OccursAt(text, blocks[k], starts[..n][k]) {
        assert OccursAt(text, longer[k], starts[k]);
      }
      assert OccursAt(text, longer[n], starts[n]);
    }
  }

  /** What the last snapshot adds to an assignment. */
  lemma AssignmentLast(rows: seq<Snapshot>, refs: seq<int>, f: seq<int>)
    requires |f| == |rows| > 0
    ensures var n := |rows| - 1;
            Assignment(rows, refs, f)
            <==> Assignment(rows[..n], refs, f[..n]) && 0 <= f[n] < |refs| && refs[f[n]] == rows[n].ticks
                 && Follows(rows, f, n)
  {
    var n := |rows| - 1;
    assert forall i :: 0 <= i < n ==> (Follows(rows, f, i) <==> Follows(rows[..n], f[..n], i));
    if Assignment(rows[..n], refs, f[..n]) && Follows(rows, f, n) {
      assert forall i :: 0 <= i < n ==> f[i] == f[..n][i] && rows[i] == rows[..n][i];
    }
  }

  /** Every placement of the blocks is an assignment of the snapshots, and is recovered from it. */
  lemma {:induction false} SpreadAssigns(rows: seq<Snapshot>, refs: seq<int>, starts: seq<int>)
    requires Placement(refs, BlocksOf(rows), starts)
    ensures var f := Spread(BlocksOf(rows), starts);
            Assignment(rows, refs, f) && StartsOf(rows, f) == starts
  {
    hide Assignment, Placement, Spread, Opens;
    PlacementSize(refs, BlocksOf(rows), starts);
    if rows == [] {
      EmptyAssignment(refs, starts);
    } else {
      var n := |rows| - 1;
      var before := BlocksOf(rows[..n]);
      var m := |before|;
      if Opens(rows, n) {
        AppendedPlacement(refs, before, starts, rows[n].ticks);
        SpreadAssigns(rows[..n], refs, starts[..m]);
        SpreadAppended(before, starts, rows[n].ticks);
        AssignmentSize(rows[..n], refs, Spread(before, starts[..m]));
        NewSession(rows, refs, before, starts[..m], starts[m]);
        assert starts == starts[..m] + [starts[m]];
      } else {
        ExtendedPlacement(refs, before, starts, rows[n].ticks);
        SpreadAssigns(rows[..n], refs, starts);
        SpreadExtended(before, starts, rows[n].ticks);
        AssignmentSize(rows[..n], refs, Spread(before, starts));
        SameSession(rows, refs, before, starts);
      }
    }
  }

  lemma EmptyAssignment(refs: seq<int>, starts: seq<int>)
    requires starts == []
    ensures Assignment([], refs, Spread([], starts)) && StartsOf([], Spread([], starts)) == starts
  {
  }

  lemma PlacementSize(text: seq<int>, blocks: seq<seq<int>>, starts: seq<int>)
    requires Placement(text, blocks, starts)
    ensures |starts| == |blocks|
    ensures forall k :: 0 <= k < |blocks| ==> OccursAt(text, blocks[k], starts[k])
  {
  }

  lemma AssignmentSize(rows: seq<Snapshot>, refs: seq<int>, f: seq<int>)
    requires Assignment(rows, refs, f)
    ensures |f| == |rows|
  {
  }

  lemma SpreadAppended(blocks: seq<seq<int>>, starts: seq<int>, ticks: int)
    requires |starts| == |blocks| + 1
    ensures Spread(blocks + [[ticks]], starts) == Spread(blocks, starts[..|blocks|]) + [starts[|blocks|]]
  {
    var longer := blocks + [[ticks]];
    assert longer[..|blocks|] == blocks && longer[|blocks|] == [ticks];
    assert Range(starts[|blocks|], 1) == [starts[|blocks|]];
  }

  /** The first snapshot of a session, placed after everything before it. */
  lemma NewSession(rows: seq<Snapshot>, refs: seq<int>, before: seq<seq<int>>, starts: seq<int>, start: int)
    requires |rows| > 0 && before == BlocksOf(rows[..|rows| - 1]) && |starts| == |before|
    requires Opens(rows, |rows| - 1) && 0 <= start < |refs| && refs[start] == rows[|rows| - 1].ticks
    requires |before| > 0 ==> starts[|before| - 1] + |before[|before| - 1]| <= start
    requires Assignment(rows[..|rows| - 1], refs, Spread(before, starts))
             && StartsOf(rows[..|rows| - 1], Spread(before, starts)) == starts
    ensures var f := Spread(before, starts) + [start];
            Assignment(rows, refs, f) && StartsOf(rows, f) == starts + [start]
  {
    hide Assignment, Spread, Opens, BlocksOf;
    var n := |rows| - 1;
    var g := Spread(before, starts);
    AssignmentSize(rows[..n], refs, g);
    var f := g + [start];
    assert f[..n] == g;
    if n > 0 {
      SpreadLast(before, starts);
    }
    AssignmentLast(rows, refs, f);
  }

  /** A further snapshot of the session, placed on the next row. */
  lemma SameSession(rows: seq<Snapshot>, refs: seq<int>, before: seq<seq<int>>, starts: seq<int>)
    requires |rows| > 0 && before == BlocksOf(rows[..|rows| - 1]) && |starts| == |before| > 0
    requires !Opens(rows, |rows| - 1)
    requires var next := starts[|before| - 1] + |before[|before| - 1]|;
             0 <= next < |refs| && refs[next] == rows[|rows| - 1].ticks
    requires Assignment(rows[..|rows| - 1], refs, Spread(before, starts))
             && StartsOf(rows[..|rows| - 1], Spread(before, starts)) == starts
    ensures var f := Spread(before, starts) + [starts[|before| - 1] + |before[|before| - 1]|];
            Assignment(rows, refs, f) && StartsOf(rows, f) == starts
  {
    hide Assignment, Spread, Opens, BlocksOf;
    var n := |rows| - 1;
    var g := Spread(before, starts);
    AssignmentSize(rows[..n], refs, g);
    var f := g + [starts[|before| - 1] + |before[|before| - 1]|];
    assert f[..n] == g;
    SpreadLast(before, starts);
    AssignmentLast(rows, refs, f);
  }

  /** Every assignment of the snapshots is the spread of a placement of the blocks. */
  lemma {:induction false} AssignmentPlaces(rows: seq<Snapshot>, refs: seq<int>, f: seq<int>)
    requires Assignment(rows, refs, f)
    ensures Placement(refs, BlocksOf(rows), StartsOf(rows, f))
    ensures Spread(BlocksOf(rows), StartsOf(rows, f)) == f
  {
    hide Assignment, Placement, Spread, Opens, BlocksOf, StartsOf;
    AssignmentSize(rows, refs, f);
    if rows == [] {
      EmptyPlacement(refs, f);
    } else {
      var n := |rows| - 1;
      var before := BlocksOf(rows[..n]);
      var starts := StartsOf(rows[..n], f[..n]);
      AssignmentLast(rows, refs, f);
      AssignmentPlaces(rows[..n], refs, f[..n]);
      PlacementSize(refs, before, starts);
      LastFollows(rows, f, before, starts);
      StructureLast(rows, f);
      assert f == f[..n] + [f[n]];
      if Opens(rows, n) {
        assert (starts + [f[n]])[..|before|] == starts;
        AppendedPlacement(refs, before, starts + [f[n]], rows[n].ticks);
        SpreadAppended(before, starts + [f[n]], rows[n].ticks);
      } else {
        ExtendedPlacement(refs, before, starts, rows[n].ticks);
        SpreadExtended(before, starts, rows[n].ticks);
      }
    }
  }

  lemma EmptyPlacement(refs: seq<int>, f: seq<int>)
    requires f == []
    ensures Placement(refs, BlocksOf([]), StartsOf([], f)) && Spread(BlocksOf([]), StartsOf([], f)) == f
  {
  }

  lemma StructureLast(rows: seq<Snapshot>, f: seq<int>)
    requires |f| == |rows| > 0
    ensures var n := |rows| - 1;
            var before, starts := BlocksOf(rows[..n]), StartsOf(rows[..n], f[..n]);
            if Opens(rows, n) then
              BlocksOf(rows) == before + [[rows[n].ticks]] && StartsOf(rows, f) == starts + [f[n]]
            else
              |before| > 0 && BlocksOf(rows) == Extended(before, rows[n].ticks) && StartsOf(rows, f) == starts
  {
    hide Extended;
  }

  /** Where the last row goes, told from the end of the last block. */
  lemma LastFollows(rows: seq<Snapshot>, f: seq<int>, before: seq<seq<int>>, starts: seq<int>)
    requires |rows| == |f| > 0 && before == BlocksOf(rows[..|rows| - 1]) && |starts| == |before|
    requires Spread(before, starts) == f[..|f| - 1] && Follows(rows, f, |rows| - 1)
    ensures |rows| == 1 ==> Opens(rows, |rows| - 1)
    ensures |before| > 0 ==> (var next := starts[|before| - 1] + |before[|before| - 1]|;
                              if Opens(rows, |rows| - 1) then next <= f[|f| - 1] else next == f[|f| - 1])
    ensures !Opens(rows, |rows| - 1) ==> |before| > 0
  {
    hide Spread;
    if |before| > 0 {
      SpreadLast(before, starts);
    }
  }

  // ---- pattern matching --------------------------------------------------------------------

  /** The first `n` characters of the text end in the first `m` of the pattern. */
  predicate Ends(text: seq<int>, n: nat, pattern: seq<int>, m: nat) {
    m <= n <= |text| && m <= |pattern| && text[n - m..n] == pattern[..m]
  }

  /** One character more, in both. */
  predicate Next(text: seq<int>, n: nat, pattern: seq<int>, m: nat) {
    Ends(text, n + 1, pattern, m + 1)
  }

  /** `m` is the longest part of the pattern, of at most `limit` characters, the text so far ends in. */
  predicate Longest(text: seq<int>, n: nat, pattern: seq<int>, m: nat, limit: int) {
    && m <= limit <= |pattern| && Ends(text, n, pattern, m)
    && forall k: nat :: m < k <= limit ==> !Ends(text, n, pattern, k)
  }

  /** The longest proper part. */
  predicate LongestProper(text: seq<int>, n: nat, pattern: seq<int>, m: nat) {
    Longest(text, n, pattern, m, |pattern| - 1)
  }

  /** The first entries of the failure table: each prefix against the pattern without its first character. */
  predicate Table(pattern: seq<int>, prefix: seq<nat>, n: nat) {
    n <= |pattern| == |prefix| && forall i: nat :: i < n ==> LongestProper(pattern[1..], i, pattern, prefix[i])
  }

  lemma EndsExtended(text: seq<int>, n: nat, pattern: seq<int>, m: nat)
    requires n < |text| && m < |pattern|
    ensures Ends(text, n + 1, pattern, m + 1) <==> Ends(text, n, pattern, m) && text[n] == pattern[m]
  {
    if m <= n {
      assert text[n - m..n + 1] == text[n - m..n] + [text[n]];
      assert pattern[..m + 1] == pattern[..m] + [pattern[m]];
      if text[n - m..n + 1] == pattern[..m + 1] {
        assert (text[n - m..n] + [text[n]])[..m] == text[n - m..n] && (text[n - m..n] + [text[n]])[m] == text[n];
        assert (pattern[..m] + [pattern[m]])[..m] == pattern[..m];
      }
    }
  }

  /** Of two endings the shorter is an ending of the longer. */
  lemma EndsNested(text: seq<int>, n: nat, pattern: seq<int>, m: nat, k: nat)
    requires Ends(text, n, pattern, m) && 0 < m && k < m
    ensures Ends(text, n, pattern, k) <==> Ends(pattern[1..], m - 1, pattern, k)
  {
    assert text[n - m..n][m - k..] == text[n - k..n];
    var part := pattern[m - k..m];
    assert |pattern[1..][m - 1 - k..m - 1]| == k && |part| == k && |pattern[..m][m - k..]| == k;
    assert pattern[..m][m - k..] == part;
    assert forall i :: 0 <= i < k ==> pattern[1..][m - 1 - k..m - 1][i] == part[i];
    assert pattern[1..][m - 1 - k..m - 1] == part;
  }

  lemma TableShorter(text: seq<int>, n: nat, pattern: seq<int>, prefix: seq<nat>, m: nat, k: nat)
    requires 0 < m <= |pattern| == |prefix| && Ends(text, n, pattern, m)
             && LongestProper(pattern[1..], m - 1, pattern, prefix[m - 1])
    requires prefix[m - 1] < k < m
    ensures !Ends(text, n, pattern, k)
  {
    EndsNested(text, n, pattern, m, k);
  }

  /** One character of the text: the longest ending becomes the longest ending of one character more. */
  method Advance(text: seq<int>, n: nat, pattern: seq<int>, prefix: seq<nat>, matched: nat)
    returns (r: nat, ghost steps: nat)
    requires n < |text| && LongestProper(text, n, pattern, matched) && Table(pattern, prefix, matched)
    ensures Longest(text, n + 1, pattern, r, |pattern|)
    ensures steps + r <= matched + 1
  {
    r, steps := matched, 0;
    var ticks := text[n];
    forall k: nat | matched < k < |pattern| ensures !Next(text, n, pattern, k) {
      EndsExtended(text, n, pattern, k);
    }
    while r != 0 && ticks != pattern[r]
      invariant r <= matched < |pattern| && Ends(text, n, pattern, r)
      invariant forall k: nat :: r < k < |pattern| ==> !Next(text, n, pattern, k)
      invariant steps + r <= matched
      decreases r
    {
      forall k: nat | prefix[r - 1] < k <= r ensures !Next(text, n, pattern, k) {
        EndsExtended(text, n, pattern, k);
        if k < r {
          TableShorter(text, n, pattern, prefix, r, k);
        }
      }
      assert LongestProper(pattern[1..], r - 1, pattern, prefix[r - 1]);
      ShorterEnds(text, n, pattern, r, prefix[r - 1]);
      r := prefix[r - 1];
      steps := steps + 1;
    }
    EndsExtended(text, n, pattern, r);
    ghost var last := r;
    if ticks == pattern[r] {
      r := r + 1;
    }
    var after: nat := n + 1;
    forall k: nat | r < k <= |pattern| ensures !Ends(text, after, pattern, k) {
      if k > last + 1 {
        assert !Next(text, n, pattern, k - 1);
      }
    }
  }

  lemma ShorterEnds(text: seq<int>, n: nat, pattern: seq<int>, m: nat, k: nat)
    requires 0 < m && Ends(text, n, pattern, m) && Ends(pattern[1..], m - 1, pattern, k)
    ensures k < m && Ends(text, n, pattern, k)
  {
    EndsNested(text, n, pattern, m, k);
  }

  method PrefixTable(pattern: seq<int>) returns (prefix: seq<nat>, ghost steps: nat)
    requires pattern != []
    ensures Table(pattern, prefix, |pattern|)
    ensures steps < |pattern|
  {
    prefix, steps := seq(|pattern|, _ => 0), 0;
    var matched := 0;
    for index := 1 to |pattern|
      invariant Table(pattern, prefix, index)
      invariant matched == prefix[index - 1]
      invariant steps + matched < index
    {
      ghost var more;
      matched, more := Advance(pattern[1..], index - 1, pattern, prefix, matched);
      steps := steps + more;
      prefix := prefix[index := matched];
      assert LongestProper(pattern[1..], index, pattern, matched);
    }
  }

  /** Exactly the occurrences of the pattern, ascending. */
  ghost predicate Occurrences(text: seq<int>, pattern: seq<int>, starts: seq<int>, n: int) {
    && (forall i :: i in starts <==> OccursAt(text, pattern, i) && i + |pattern| <= n)
    && (forall i, j :: 0 <= i < j < |starts| ==> starts[i] < starts[j])
  }

  /** All occurrences, overlapping ones included, in a linear number of fallbacks. */
  method Occurrence(text: seq<int>, pattern: seq<int>) returns (starts: seq<int>, ghost steps: nat)
    requires pattern != []
    ensures Occurrences(text, pattern, starts, |text|)
    ensures steps < |pattern| + 2 * |text|
  {
    hide Table, Longest, LongestProper, Occurrences, Ends;
    var prefix: seq<nat>;
    prefix, steps := PrefixTable(pattern);
    ghost var first := steps;
    SearchStarts(text, pattern);
    starts := [];
    var matched := 0;
    for index := 0 to |text|
      invariant LongestProper(text, index, pattern, matched)
      invariant Occurrences(text, pattern, starts, index)
      invariant steps + matched <= first + index
    {
      ghost var more;
      TableFewer(text, index, pattern, prefix, matched);
      matched, more := Advance(text, index, pattern, prefix, matched);
      steps := steps + more;
      OccurrenceStep(text, pattern, starts, index, matched);
      if matched == |pattern| {
        starts := starts + [index + 1 - |pattern|];
        LongestBorder(text, index + 1, pattern, prefix);
        matched := prefix[matched - 1];
      } else {
        LongestPart(text, index + 1, pattern, matched);
      }
    }
  }

  lemma SearchStarts(text: seq<int>, pattern: seq<int>)
    requires pattern != []
    ensures LongestProper(text, 0, pattern, 0) && Occurrences(text, pattern, [], 0)
  {
  }

  lemma TableFewer(text: seq<int>, n: nat, pattern: seq<int>, prefix: seq<nat>, matched: nat)
    requires LongestProper(text, n, pattern, matched) && Table(pattern, prefix, |pattern|)
    ensures Table(pattern, prefix, matched)
  {
  }

  lemma LongestPart(text: seq<int>, n: nat, pattern: seq<int>, m: nat)
    requires Longest(text, n, pattern, m, |pattern|) && m != |pattern|
    ensures LongestProper(text, n, pattern, m)
  {
  }

  lemma OccurrenceStep(text: seq<int>, pattern: seq<int>, starts: seq<int>, index: nat, matched: nat)
    requires index < |text| && pattern != [] && Occurrences(text, pattern, starts, index)
    requires Longest(text, index + 1, pattern, matched, |pattern|)
    ensures var more := if matched == |pattern| then starts + [index + 1 - |pattern|] else starts;
            Occurrences(text, pattern, more, index + 1)
  {
    var i := index + 1 - |pattern|;
    assert OccursAt(text, pattern, i) <==> Ends(text, index + 1, pattern, |pattern|) by {
      assert pattern[..|pattern|] == pattern;
    }
    forall k | 0 <= k < |starts| ensures starts[k] < i {
      assert starts[k] in starts;
    }
  }

  lemma LongestBorder(text: seq<int>, n: nat, pattern: seq<int>, prefix: seq<nat>)
    requires pattern != [] && Table(pattern, prefix, |pattern|) && Longest(text, n, pattern, |pattern|, |pattern|)
    ensures |prefix| == |pattern| && prefix[|pattern| - 1] < |pattern|
            && LongestProper(text, n, pattern, prefix[|pattern| - 1])
  {
    var m := |pattern|;
    var k := prefix[m - 1];
    assert LongestProper(pattern[1..], m - 1, pattern, k);
    ShorterEnds(text, n, pattern, m, k);
    forall j: nat | k < j < m ensures !Ends(text, n, pattern, j) {
      TableShorter(text, n, pattern, prefix, m, j);
    }
  }

  // ---- earliest and latest -------------------------------------------------------------------

  ghost predicate AllOccurrences(text: seq<int>, blocks: seq<seq<int>>, placements: seq<seq<int>>) {
    |placements| == |blocks| && forall k :: 0 <= k < |blocks| ==> Occurrences(text, blocks[k], placements[k], |text|)
  }

  method FirstFrom(starts: seq<int>, frontier: int) returns (r: Option<int>)
    requires forall i, j :: 0 <= i < j < |starts| ==> starts[i] < starts[j]
    ensures r.Some? ==> r.value in starts && r.value >= frontier
                        && forall v :: v in starts && v >= frontier ==> r.value <= v
    ensures r.None? ==> forall v :: v in starts ==> v < frontier
  {
    for i := 0 to |starts|
      invariant forall j :: 0 <= j < i ==> starts[j] < frontier
    {
      if starts[i] >= frontier {
        return Some(starts[i]);
      }
    }
    return None;
  }

  method LastEndingBy(starts: seq<int>, length: nat, frontier: int) returns (r: Option<int>)
    requires forall i, j :: 0 <= i < j < |starts| ==> starts[i] < starts[j]
    ensures r.Some? ==> r.value in starts && r.value + length <= frontier
                        && forall v :: v in starts && v + length <= frontier ==> v <= r.value
    ensures r.None? ==> forall v :: v in starts ==> v + length > frontier
  {
    for i := |starts| downto 0
      invariant forall j :: i <= j < |starts| ==> starts[j] + length > frontier
    {
      if starts[i] + length <= frontier {
        return Some(starts[i]);
      }
    }
    return None;
  }

  predicate NowhereAfter(p: seq<int>, q: seq<int>) {
    |p| == |q| && forall k :: 0 <= k < |p| ==> p[k] <= q[k]
  }

  /** The greedy placement from the front is below every placement; it fails only if there is none. */
  method Earliest(text: seq<int>, blocks: seq<seq<int>>, placements: seq<seq<int>>) returns (r: Option<seq<int>>)
    requires AllOccurrences(text, blocks, placements)
    ensures r.None? ==> forall p :: !Placement(text, blocks, p)
    ensures r.Some? ==> Placement(text, blocks, r.value)
                        && forall p :: Placement(text, blocks, p) ==> NowhereAfter(r.value, p)
  {
    hide Placement, OccursAt, Occurrences;
    EmptyPlaced(text, blocks);
    var earliest := [];
    var frontier := 0;
    for n := 0 to |blocks|
      invariant Placement(text, blocks[..n], earliest)
      invariant |earliest| == n && frontier == if n == 0 then 0 else earliest[n - 1] + |blocks[n - 1]|
      invariant forall p :: Placement(text, blocks, p) ==> |p| == |blocks| && NowhereAfter(earliest, p[..n])
    {
      Listed(text, blocks, placements, n);
      var start := FirstFrom(placements[n], frontier);
      forall p | Placement(text, blocks, p) 
        ensures |p| == |blocks| && p[n] in placements[n] && p[n] >= frontier && p[..n + 1] == p[..n] + [p[n]] {
        PlacedAfter(text, blocks, p, n, earliest, frontier);
      }
      if start.None? {
        return None;
      }
      AppendPlacement(text, blocks, n, start.value, earliest);
      earliest := earliest + [start.value];
      frontier := start.value + |blocks[n]|;
    }
    Whole(blocks);
    forall p | Placement(text, blocks, p) ensures p[..|blocks|] == p {
      Whole(p);
    }
    return Some(earliest);
  }

  lemma PlacedAfter(text: seq<int>, blocks: seq<seq<int>>, p: seq<int>, n: nat, earliest: seq<int>, frontier: int)
    requires Placement(text, blocks, p) && n < |blocks| && |earliest| == n
    requires frontier == if n == 0 then 0 else earliest[n - 1] + |blocks[n - 1]|
    requires |p| == |blocks| && NowhereAfter(earliest, p[..n])
    ensures OccursAt(text, blocks[n], p[n]) && p[n] >= frontier
  {
  }

  /** The greedy placement from the back is above every placement. */
  method Latest(text: seq<int>, blocks: seq<seq<int>>, placements: seq<seq<int>>) returns (r: Option<seq<int>>)
    requires AllOccurrences(text, blocks, placements)
    ensures r.None? ==> forall p :: !Placement(text, blocks, p)
    ensures r.Some? ==> Placement(text, blocks, r.value)
                        && forall p :: Placement(text, blocks, p) ==> NowhereAfter(p, r.value)
  {
    hide Placement, OccursAt, Occurrences;
    EmptyPlaced(text, blocks);
    var latest := [];
    var frontier := |text|;
    for n := |blocks| downto 0
      invariant Placement(text, blocks[n..], latest)
      invariant |latest| == |blocks| - n && frontier == if n == |blocks| then |text| else latest[0]
      invariant forall p :: Placement(text, blocks, p) ==> |p| == |blocks| && NowhereAfter(p[n..], latest)
    {
      Listed(text, blocks, placements, n);
      var start := LastEndingBy(placements[n], |blocks[n]|, frontier);
      forall p | Placement(text, blocks, p) 
        ensures |p| == |blocks| && p[n] in placements[n] && p[n] + |blocks[n]| <= frontier
                && p[n..] == [p[n]] + p[n + 1..] {
        PlacedBefore(text, blocks, p, n, latest, frontier);
      }
      if start.None? {
        return None;
      }
      PrependPlacement(text, blocks, n, start.value, latest);
      latest := [start.value] + latest;
      frontier := start.value;
    }
    assert blocks[0..] == blocks;
    return Some(latest);
  }

  lemma PlacedBefore(text: seq<int>, blocks: seq<seq<int>>, p: seq<int>, n: nat, latest: seq<int>, frontier: int)
    requires Placement(text, blocks, p) && n < |blocks| && |latest| == |blocks| - n - 1
    requires frontier == if n + 1 == |blocks| then |text| else latest[0]
    requires |p| == |blocks| && NowhereAfter(p[n + 1..], latest)
    ensures OccursAt(text, blocks[n], p[n]) && p[n] + |blocks[n]| <= frontier
  {
    if n + 1 < |blocks| {
      assert p[n + 1 - 1] + |blocks[n + 1 - 1]| <= p[n + 1];
    }
  }

  lemma Whole<T>(s: seq<T>)
    ensures s[..|s|] == s
  {
  }

  lemma EmptyPlaced(text: seq<int>, blocks: seq<seq<int>>)
    ensures Placement(text, blocks[..0], []) && Placement(text, blocks[|blocks|..], [])
    ensures forall p :: Placement(text, blocks, p) ==> |p| == |blocks|
  {
  }

  /** The list of a block's occurrences, as the search gave it. */
  lemma Listed(text: seq<int>, blocks: seq<seq<int>>, placements: seq<seq<int>>, n: nat)
    requires AllOccurrences(text, blocks, placements) && n < |blocks|
    ensures forall i, j :: 0 <= i < j < |placements[n]| ==> placements[n][i] < placements[n][j]
    ensures forall v :: v in placements[n] <==> OccursAt(text, blocks[n], v)
  {
    assert Occurrences(text, blocks[n], placements[n], |text|);
  }

  lemma AppendPlacement(text: seq<int>, blocks: seq<seq<int>>, n: nat, start: int, earliest: seq<int>)
    requires n < |blocks| && Placement(text, blocks[..n], earliest) && OccursAt(text, blocks[n], start)
    requires n > 0 ==> earliest[n - 1] + |blocks[n - 1]| <= start
    ensures Placement(text, blocks[..n + 1], earliest + [start])
  {
    forall k | 0 <= k <= n ensures OccursAt(text, blocks[k], (earliest + [start])[k]) {
      if k < n {
        assert OccursAt(text, blocks[..n][k], earliest[k]);
      }
    }
    forall k | 0 < k <= n ensures (earliest + [start])[k - 1] + |blocks[k - 1]| <= (earliest + [start])[k] {
      if k < n {
        assert earliest[k - 1] + |blocks[..n][k - 1]| <= earliest[k];
      }
    }
  }

  lemma PrependPlacement(text: seq<int>, blocks: seq<seq<int>>, n: nat, start: int, latest: seq<int>)
    requires n < |blocks| && Placement(text, blocks[n + 1..], latest) && OccursAt(text, blocks[n], start)
    requires start + |blocks[n]| <= if n + 1 == |blocks| then |text| else latest[0]
    ensures Placement(text, blocks[n..], [start] + latest)
  {
    var rest, longer := blocks[n + 1..], [start] + latest;
    assert blocks[n..] == [blocks[n]] + rest;
    forall k | 0 < k < |blocks| - n ensures longer[k - 1] + |blocks[n..][k - 1]| <= longer[k] {
      if k > 1 {
        assert latest[k - 1 - 1] + |rest[k - 1 - 1]| <= latest[k - 1];
      }
    }
    forall k | 0 <= k < |blocks| - n ensures OccursAt(text, blocks[n..][k], longer[k]) {
      if k > 0 {
        assert OccursAt(text, rest[k - 1], latest[k - 1]);
      }
    }
  }

  // ---- the audit -----------------------------------------------------------------------------

  /** Missing exactly without an assignment, Placed exactly with one, Ambiguous exactly with several. */
  ghost predicate Verdict(rows: seq<Snapshot>, refs: seq<int>, r: Audit) {
    match r
    case Refused(OutOfRange) => !InRange(rows, refs)
    case Refused(Missing) => InRange(rows, refs) && forall f :: !Assignment(rows, refs, f)
    case Refused(Ambiguous) =>
      InRange(rows, refs) && exists f, g :: f != g && Assignment(rows, refs, f) && Assignment(rows, refs, g)
    case Placed(f) =>
      InRange(rows, refs) && Assignment(rows, refs, f) && forall g :: Assignment(rows, refs, g) ==> g == f
  }

  method OrderedReferenceAudit(rows: seq<Snapshot>, refs: seq<int>) returns (r: Audit)
    ensures Verdict(rows, refs, r)
  {
    hide Verdict, Placement, Spread, BlocksOf, Occurrences, NowhereAfter;
    if !InRange(rows, refs) {
      NotInRange(rows, refs);
      return Refused(OutOfRange);
    }
    var blocks := SessionBlocks(rows);
    var placements := AllPlacements(refs, blocks);
    var earliest := Earliest(refs, blocks, placements);
    if earliest.None? {
      NoPlacement(rows, refs);
      return Refused(Missing);
    }
    var latest := Latest(refs, blocks, placements);
    if latest.None? {
      NoPlacement(rows, refs);
      return Refused(Missing);
    }
    if earliest.value != latest.value {
      TwoPlacements(rows, refs, earliest.value, latest.value);
      return Refused(Ambiguous);
    }
    PlacementSize(refs, blocks, earliest.value);
    OnePlacement(rows, refs, earliest.value);
    return Placed(Spread(blocks, earliest.value));
  }

  /** The occurrences of every block. */
  method AllPlacements(refs: seq<int>, blocks: seq<seq<int>>) returns (placements: seq<seq<int>>)
    requires forall k :: 0 <= k < |blocks| ==> blocks[k] != []
    ensures AllOccurrences(refs, blocks, placements)
  {
    hide Occurrences;
    placements := [];
    for k := 0 to |blocks|
      invariant |placements| == k && forall j :: 0 <= j < k ==> Occurrences(refs, blocks[j], placements[j], |refs|)
    {
      var starts, _ := Occurrence(refs, blocks[k]);
      placements := placements + [starts];
    }
  }

  lemma NotInRange(rows: seq<Snapshot>, refs: seq<int>)
    requires !InRange(rows, refs)
    ensures Verdict(rows, refs, Refused(OutOfRange))
  {
    hide InRange, Assignment;
  }

  lemma NoPlacement(rows: seq<Snapshot>, refs: seq<int>)
    requires InRange(rows, refs) && forall p :: !Placement(refs, BlocksOf(rows), p)
    ensures Verdict(rows, refs, Refused(Missing))
  {
    hide InRange, Assignment, Placement;
    forall f | Assignment(rows, refs, f) ensures false {
      AssignmentSize(rows, refs, f);
      AssignmentPlaces(rows, refs, f);
    }
  }

  lemma TwoPlacements(rows: seq<Snapshot>, refs: seq<int>, p: seq<int>, q: seq<int>)
    requires InRange(rows, refs) && p != q && Placement(refs, BlocksOf(rows), p) && Placement(refs, BlocksOf(rows), q)
    ensures Verdict(rows, refs, Refused(Ambiguous))
  {
    hide InRange, Assignment, Placement, Spread;
    PlacementSize(refs, BlocksOf(rows), p);
    PlacementSize(refs, BlocksOf(rows), q);
    SpreadAssigns(rows, refs, p);
    SpreadAssigns(rows, refs, q);
  }

  lemma OnePlacement(rows: seq<Snapshot>, refs: seq<int>, p: seq<int>)
    requires InRange(rows, refs) && |p| == |BlocksOf(rows)| && Placement(refs, BlocksOf(rows), p)
    requires forall q :: Placement(refs, BlocksOf(rows), q) ==> NowhereAfter(p, q) && NowhereAfter(q, p)
    ensures Verdict(rows, refs, Placed(Spread(BlocksOf(rows), p)))
  {
    hide InRange, Assignment, Placement, Spread, BlocksOf;
    SpreadAssigns(rows, refs, p);
    forall g | Assignment(rows, refs, g) ensures g == Spread(BlocksOf(rows), p) {
      AssignmentSize(rows, refs, g);
      AssignmentPlaces(rows, refs, g);
      assert StartsOf(rows, g) == p;
    }
  }
}
