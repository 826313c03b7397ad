/**
 The byte stream of the instrument, cut into lines three times: live from whatever chunks
 the port delivers, on disk into rotated segments, and offline from blocks of those
 segments.  The chunks, the rotation and the blocks do not matter exactly when no
 terminated line is longer than the buffer limit.
 */
module Framing {
  import opened Words

  type Byte = x: int | 0 <= x < 256

  type Bytes = seq<Byte>

  const NEWLINE: Byte := 10
  const RETURN: Byte := 13
  const LIMIT: nat := 8192

  // ---- what a stream says ----------------------------------------------------------------

  /** What follows the last newline. */
  function Rest(data: Bytes): Bytes {
    if data == [] || data[|data| - 1] == NEWLINE then [] else Rest(data[..|data| - 1]) + [data[|data| - 1]]
  }

  /** The terminated lines, before their carriage returns are removed. */
  function RawLines(data: Bytes): seq<Bytes> {
    if data == [] then [] else
    var before := data[..|data| - 1];
    if data[|data| - 1] == NEWLINE then RawLines(before) + [Rest(before)] else RawLines(before)
  }

  function Stripped(line: Bytes): Bytes {
    if line != [] && line[|line| - 1] == RETURN then Stripped(line[..|line| - 1]) else line
  }

  function Lines(raw: seq<Bytes>): (r: seq<Bytes>)
    ensures |r| == |raw| && forall i :: 0 <= i < |raw| ==> r[i] == Stripped(raw[i])
  {
    seq(|raw|, i requires 0 <= i < |raw| => Stripped(raw[i]))
  }

  /** No terminated line exceeds the limit. */
  predicate LinesFit(data: Bytes) {
    forall i :: 0 <= i < |RawLines(data)| ==> |RawLines(data)[i]| <= 8192
  }

  function Flatten(chunks: seq<Bytes>): Bytes {
    if chunks == [] then [] else Flatten(chunks[..|chunks| - 1]) + chunks[|chunks| - 1]
  }

  /** Cutting may stop anywhere and go on from what was left over. */
  lemma {:induction false} CutResumes(a: Bytes, b: Bytes)
    ensures RawLines(a + b) == RawLines(a) + RawLines(Rest(a) + b)
    ensures Rest(a + b) == Rest(Rest(a) + b)
    decreases |b|
  {
    if b == [] {
      assert a + b == a && Rest(a) + b == Rest(a);
      NoLines(a);
    } else {
      var c := b[..|b| - 1];
      assert (a + b)[..|a + b| - 1] == a + c && (Rest(a) + b)[..|Rest(a) + b| - 1] == Rest(a) + c;
      CutResumes(a, c);
    }
  }

  lemma {:induction false} NoLines(a: Bytes)
    ensures RawLines(Rest(a)) == [] && Rest(Rest(a)) == Rest(a)
  {
    if a != [] && a[|a| - 1] != NEWLINE {
      var before := a[..|a| - 1];
      assert Rest(a)[..|Rest(a)| - 1] == Rest(before);
      NoLines(before);
    }
  }

  /** Bytes without a newline are all left over. */
  lemma {:induction false} NoNewline(a: Bytes)
    requires NEWLINE !in a
    ensures RawLines(a) == [] && Rest(a) == a
  {
    if a != [] {
      NoNewline(a[..|a| - 1]);
    }
  }

  /** The first newline ends the first line. */
  lemma FirstLine(data: Bytes, end: nat)
    requires end < |data| && data[end] == NEWLINE && NEWLINE !in data[..end]
    ensures RawLines(data) == [data[..end]] + RawLines(data[end + 1..])
    ensures Rest(data) == Rest(data[end + 1..])
  {
    hide RawLines, Rest;
    LineThen(data[..end], data[end + 1..]);
    assert data == data[..end] + [NEWLINE] + data[end + 1..];
  }

  lemma LineThen(line: Bytes, tail: Bytes)
    requires NEWLINE !in line
    ensures RawLines(line + [NEWLINE] + tail) == [line] + RawLines(tail)
    ensures Rest(line + [NEWLINE] + tail) == Rest(tail)
  {
    hide RawLines, Rest;
    OneLine(line);
    CutResumes(line + [NEWLINE], tail);
    assert [] + tail == tail;
  }

  lemma OneLine(line: Bytes)
    requires NEWLINE !in line
    ensures RawLines(line + [NEWLINE]) == [line] && Rest(line + [NEWLINE]) == []
  {
    NoNewline(line);
    assert (line + [NEWLINE])[..|line|] == line;
  }

  /** `data.find(b"\n")`, or the length when there is none. */
  method FindNewline(data: Bytes) returns (end: nat)
    ensures end <= |data| && NEWLINE !in data[..end]
    ensures end < |data| ==> data[end] == NEWLINE
  {
    end := 0;
    while end < |data| && data[end] != NEWLINE
      invariant end <= |data| && NEWLINE !in data[..end]
    {
      end := end + 1;
    }
  }

  method StripReturns(line: Bytes) returns (r: Bytes)
    ensures r == Stripped(line)
  {
    r := line;
    while r != [] && r[|r| - 1] == RETURN
      invariant Stripped(r) == Stripped(line)
      decreases |r|
    {
      r := r[..|r| - 1];
    }
  }

  // ---- what lines and records are ----------------------------------------------------------

  function Returns(n: nat): Bytes {
    seq(n, _ => 13)
  }

  /** The record of a line: nothing is lost but the carriage returns at its end, and those all are. */
  ghost predicate RecordOf(line: Bytes, record: Bytes) {
    && (record == [] || record[|record| - 1] != 13)
    && exists n: nat :: line == record + Returns(n)
  }

  lemma {:induction false} StrippedIsRecord(line: Bytes)
    ensures RecordOf(line, Stripped(line))
  {
    if line != [] && line[|line| - 1] == RETURN {
      var shorter := line[..|line| - 1];
      StrippedIsRecord(shorter);
      assert line == shorter + [13];
      OneMoreReturn(shorter, Stripped(shorter));
    } else {
      assert line == line + Returns(0);
    }
  }

  lemma OneMoreReturn(line: Bytes, record: Bytes)
    requires RecordOf(line, record)
    ensures RecordOf(line + [13], record)
  {
    var n: nat :| line == record + Returns(n);
    assert Returns(n) + [13] == Returns(n + 1);
    Associative(record, Returns(n), [13]);
    assert line + [13] == record + Returns(n + 1);
  }

  /** A line has one record. */
  lemma RecordIsUnique(line: Bytes, record: Bytes)
    requires RecordOf(line, record)
    ensures record == Stripped(line)
  {
    var n: nat :| line == record + Returns(n);
    StripsReturns(record, n);
  }

  lemma {:induction false} StripsReturns(record: Bytes, n: nat)
    requires record == [] || record[|record| - 1] != 13
    ensures Stripped(record + Returns(n)) == record
  {
    if n > 0 {
      assert (record + Returns(n))[..|record| + n - 1] == record + Returns(n - 1);
      StripsReturns(record, n - 1);
    } else {
      assert record + Returns(0) == record;
    }
  }

  /** Every line handed on is the record of a raw line, in the same place. */
  lemma LinesAreRecords(raw: seq<Bytes>)
    ensures |Lines(raw)| == |raw| && forall i :: 0 <= i < |raw| ==> RecordOf(raw[i], Lines(raw)[i])
  {
    forall i | 0 <= i < |raw| ensures RecordOf(raw[i], Lines(raw)[i]) {
      StrippedIsRecord(raw[i]);
    }
  }

  /** The lines with their newlines, end to end. */
  function Joined(raw: seq<Bytes>): Bytes {
    if raw == [] then [] else Joined(raw[..|raw| - 1]) + raw[|raw| - 1] + [10]
  }

  /**
   Cutting a stream loses nothing: its lines with their newlines and its rest are the stream, and
   none holds a newline.
   */
  lemma {:induction false} CuttingIsExact(data: Bytes)
    ensures data == Joined(RawLines(data)) + Rest(data)
    ensures 10 !in Rest(data) && forall i :: 0 <= i < |RawLines(data)| ==> 10 !in RawLines(data)[i]
  {
    if data != [] {
      var before, last := data[..|data| - 1], data[|data| - 1];
      CuttingIsExact(before);
      assert data == before + [last];
      if last == NEWLINE {
        var raw := RawLines(before) + [Rest(before)];
        assert raw[..|raw| - 1] == RawLines(before);
        assert data == Joined(RawLines(before)) + Rest(before) + [10];
      } else {
        assert data == Joined(RawLines(before)) + (Rest(before) + [last]);
      }
    }
  }

  // ---- live ------------------------------------------------------------------------------

  /** The parser between two chunks, and the lines it has handed on. */
  datatype Live = Live(partial: Bytes, overflow: bool, seen: nat, raw: seq<Bytes>)

  const QUIET: Live := Live([], false, 0, [])

  /** A line that follows an overflow is the tail of a longer one and is not handed on. */
  function Heard(overflow: bool, raw: seq<Bytes>): seq<Bytes> {
    if overflow && raw != [] then raw[1..] else raw
  }

  function Observed(s: Live, data: Bytes): Live {
    var all := s.partial + data;
    var raw, rest := RawLines(all), Rest(all);
    Live(if |rest| > LIMIT then [] else rest, |rest| > LIMIT || (s.overflow && raw == []), s.seen + |raw|,
         s.raw + Heard(s.overflow, raw))
  }

  function LiveAfter(chunks: seq<Bytes>): Live {
    if chunks == [] then QUIET else Observed(LiveAfter(chunks[..|chunks| - 1]), chunks[|chunks| - 1])
  }

  /** The recorder's advisory parser. */
  class LineObserver {
    var partial: Bytes
    var overflow: bool
    var seen: nat
    var records: seq<Bytes>
    ghost var raw: seq<Bytes>

    ghost function View(): Live
      reads this
    {
      Live(partial, overflow, seen, raw)
    }

    constructor ()
      ensures View() == QUIET && records == []
    {
      partial, overflow, seen, records, raw := [], false, 0, [], [];
    }

    method Observe(data: Bytes)
      requires records == Lines(raw)
      modifies this
      ensures View() == Observed(old(View()), data)
      ensures records == Lines(raw)
      ensures old(|partial|) <= LIMIT ==> |partial| <= LIMIT
    {
      hide Rest, RawLines, Stripped, Heard;
      HeardNothing(overflow);
      ghost var start := View();
      partial := partial + data;
      ghost var all := partial;
      ghost var done: seq<Bytes> := [];
      while true
        invariant RawLines(all) == done + RawLines(partial) && Rest(all) == Rest(partial)
        invariant seen == start.seen + |done|
        invariant overflow == (start.overflow && done == [])
        invariant raw == start.raw + Heard(start.overflow, done)
        invariant records == Lines(raw)
        decreases |partial|
      {
        var end := FindNewline(partial);
        if end == |partial| {
          NoNewline(partial);
          assert RawLines(all) == done;
          if |partial| > LIMIT {
            partial := [];
            overflow := true;
          }
          return;
        }
        TakeLine(all, done, partial, end);
        ghost var line := partial[..end];
        var record := StripReturns(partial[..end]);
        partial := partial[end + 1..];
        HeardNext(start.raw, start.overflow, done, line);
        done := done + [line];
        seen := seen + 1;
        if overflow {
          overflow := false;
        } else {
          records := records + [record];
          raw := raw + [line];
        }
      }
    }
  }

  lemma HeardNext(before: seq<Bytes>, overflow: bool, raw: seq<Bytes>, line: Bytes)
    ensures before + Heard(overflow, raw + [line])
            == if overflow && raw == [] then before + Heard(overflow, raw) else before + Heard(overflow, raw) + [line]
  {
  }

  lemma HeardNothing(overflow: bool)
    ensures Heard(overflow, []) == []
  {
  }

  /** Taking the first line off what is left. */
  lemma TakeLine(all: Bytes, done: seq<Bytes>, partial: Bytes, end: nat)
    requires RawLines(all) == done + RawLines(partial) && Rest(all) == Rest(partial)
    requires end < |partial| && partial[end] == NEWLINE && NEWLINE !in partial[..end]
    ensures RawLines(all) == done + [partial[..end]] + RawLines(partial[end + 1..])
    ensures Rest(all) == Rest(partial[end + 1..])
  {
    hide RawLines, Rest;
    FirstLine(partial, end);
    var line, after := partial[..end], RawLines(partial[end + 1..]);
    assert (done + [line]) + after == done + ([line] + after);
  }

  // ---- on disk -----------------------------------------------------------------------------

  /** What the rotation makes of one write. */
  function Written(segments: seq<Bytes>, data: Bytes, rotateBytes: nat): seq<Bytes>
    requires |segments| > 0
  {
    var n := |segments| - 1;
    var filled := segments[..n] + [segments[n] + data];
    if |segments[n] + data| >= rotateBytes then filled + [[]] else filled
  }

  function SegmentsAfter(chunks: seq<Bytes>, rotateBytes: nat): (r: seq<Bytes>)
    ensures |r| > 0
  {
    if chunks == [] then [[]] else
    Written(SegmentsAfter(chunks[..|chunks| - 1], rotateBytes), chunks[|chunks| - 1], rotateBytes)
  }

  class RawRecorder {
    const rotateBytes: nat
    var segments: seq<Bytes>
    var sizes: seq<nat>
    var rawSize: nat
    var bytesRecorded: nat

    /** The sizes the manifest declares are the sizes on disk, and only the last segment is still short. */
    ghost predicate Valid()
      reads this
    {
      && rotateBytes > 0 && |segments| == |sizes| > 0
      && (forall i :: 0 <= i < |sizes| ==> sizes[i] == |segments[i]|)
      && (forall i :: 0 <= i < |sizes| - 1 ==> sizes[i] >= rotateBytes)
      && rawSize == sizes[|sizes| - 1] < rotateBytes && bytesRecorded == |Flatten(segments)|
    }

    constructor (rotateBytes: nat)
      requires rotateBytes > 0
      ensures Valid() && this.rotateBytes == rotateBytes && segments == SegmentsAfter([], rotateBytes)
    {
      this.rotateBytes := rotateBytes;
      segments, sizes, rawSize, bytesRecorded := [[]], [0], 0, 0;
    }

    /** The operating system may take any part of a write; one that takes nothing stops the recording. */
    method WriteRaw(data: Bytes) returns (ok: bool)
      requires Valid()
      modifies this
      ensures ok ==> Valid() && segments == Written(old(segments), data, rotateBytes)
                     && bytesRecorded == old(bytesRecorded) + |data|
      ensures !ok ==> exists n :: 0 <= n < |data| && Flatten(segments) == old(Flatten(segments)) + data[..n]
    {
      hide Flatten;
      ghost var before := segments;
      var last := |segments| - 1;
      var view := data;
      assert before[last] + data[..0] == before[last];
      ghost var done := 0;
      while view != []
        invariant 0 <= done <= |data| && view == data[done..]
        invariant segments == before[..last] + [before[last] + data[..done]]
        invariant sizes == old(sizes) && rawSize == old(rawSize) && bytesRecorded == old(bytesRecorded)
        decreases |view|
      {
        var count: int :| count <= |view|;
        if count <= 0 {
          FlattenLast(before, data[..done]);
          return false;
        }
        assert data[..done + count] == data[..done] + view[..count];
        assert before[last] + data[..done + count] == before[last] + data[..done] + view[..count];
        assert segments[..last] == before[..last] && segments[last] == before[last] + data[..done];
        segments := segments[..last] + [segments[last] + view[..count]];
        view := view[count..];
        done := done + count;
      }
      assert data[..done] == data;
      FlattenLast(before, data);
      rawSize := rawSize + |data|;
      bytesRecorded := bytesRecorded + |data|;
      sizes := sizes[last := rawSize];
      if rawSize >= rotateBytes {
        FlattenEmpty(segments);
        segments, sizes, rawSize := segments + [[]], sizes + [0], 0;
      }
      return true;
    }
  }

  /** Bytes added to the last segment are added to the stream. */
  lemma FlattenLast(segments: seq<Bytes>, data: Bytes)
    requires |segments| > 0
    ensures var n := |segments| - 1;
            Flatten(segments[..n] + [segments[n] + data]) == Flatten(segments) + data
  {
    hide Flatten;
    var n := |segments| - 1;
    var head, last := segments[..n], segments[n];
    FlattenAppend(head, last + data);
    FlattenAppend(head, last);
    assert segments == head + [last];
    Associative(Flatten(head), last, data);
  }

  lemma Associative(a: Bytes, b: Bytes, c: Bytes)
    ensures a + (b + c) == a + b + c
  {
  }

  lemma FlattenEmpty(segments: seq<Bytes>)
    ensures Flatten(segments + [[]]) == Flatten(segments)
  {
    hide Flatten;
    FlattenAppend(segments, []);
    assert Flatten(segments) + [] == Flatten(segments);
  }

  lemma FlattenAppend(chunks: seq<Bytes>, chunk: Bytes)
    ensures Flatten(chunks + [chunk]) == Flatten(chunks) + chunk
  {
    assert (chunks + [chunk])[..|chunks|] == chunks;
  }

  /** Rotation loses and reorders nothing. */
  lemma {:induction false} RotationKeepsStream(chunks: seq<Bytes>, rotateBytes: nat)
    ensures Flatten(SegmentsAfter(chunks, rotateBytes)) == Flatten(chunks)
  {
    if chunks == [] {
      var first: seq<Bytes> := [[]];
      assert first[..0] == [];
    } else {
      var n := |chunks| - 1;
      RotationKeepsStream(chunks[..n], rotateBytes);
      var segments := SegmentsAfter(chunks[..n], rotateBytes);
      FlattenLast(segments, chunks[n]);
      FlattenEmpty(segments[..|segments| - 1] + [segments[|segments| - 1] + chunks[n]]);
    }
  }

  // ---- offline -----------------------------------------------------------------------------

  /** The offline iterator between two blocks: what is pending and what it has yielded. */
  datatype Offline = Offline(pending: Bytes, items: seq<Option<Bytes>>)

  function Items(raw: seq<Bytes>): (r: seq<Option<Bytes>>)
    ensures |r| == |raw| && forall i :: 0 <= i < |raw| ==> r[i] == Some(Stripped(raw[i]))
  {
    seq(|raw|, i requires 0 <= i < |raw| => Some(Stripped(raw[i])))
  }

  function Consumed(s: Offline, block: Bytes): Offline {
    var all := s.pending + block;
    var rest := Rest(all);
    if |rest| > LIMIT then Offline([], s.items + Items(RawLines(all)) + [None])
    else Offline(rest, s.items + Items(RawLines(all)))
  }

  function OfflineAfter(blocks: seq<Bytes>): Offline {
    if blocks == [] then Offline([], []) else Consumed(OfflineAfter(blocks[..|blocks| - 1]), blocks[|blocks| - 1])
  }

  /** Everything the iterator yields. */
  function Yielded(blocks: seq<Bytes>): seq<Option<Bytes>> {
    var s := OfflineAfter(blocks);
    s.items + if s.pending == [] then [] else [None]
  }

  /** One block: `items` grow by the lines that end in it. */
  method ConsumeBlock(pending: Bytes, block: Bytes) returns (rest: Bytes, items: seq<Option<Bytes>>)
    ensures forall before :: Offline(rest, before + items) == Consumed(Offline(pending, before), block)
  {
    rest, items := pending + block, [];
    ghost var all := rest;
    ghost var raw := [];
    while true
      invariant RawLines(all) == raw + RawLines(rest) && Rest(all) == Rest(rest)
      invariant items == Items(raw)
      decreases |rest|
    {
      var end := FindNewline(rest);
      if end == |rest| {
        NoNewline(rest);
        assert raw == RawLines(all);
        if |rest| > LIMIT {
          ghost var lines := items;
          rest, items := [], items + [None];
          assert forall before: seq<Option<Bytes>> :: before + items == before + lines + [None];
        }
        return;
      }
      FirstLine(rest, end);
      ghost var line := rest[..end];
      assert (raw + [line]) + RawLines(rest[end + 1..]) == raw + ([line] + RawLines(rest[end + 1..]));
      var record := StripReturns(rest[..end]);
      rest := rest[end + 1..];
      items := items + [Some(record)];
      raw := raw + [line];
    }
  }

  /** The lines of all segments, each read in blocks of any size. */
  method IterRecordLines(segments: seq<seq<Bytes>>) returns (items: seq<Option<Bytes>>)
    ensures items == Yielded(BlocksOf(segments))
  {
    hide Consumed, OfflineAfter, BlocksOf;
    BlocksAppend([], []);
    var pending: Bytes := [];
    items := [];
    assert segments[..0] == [];
    for s := 0 to |segments|
      invariant Offline(pending, items) == OfflineAfter(BlocksOf(segments[..s]))
    {
      BlocksAppend(segments[..s], segments[s]);
      assert segments[..s] + [segments[s]] == segments[..s + 1];
      ghost var before := BlocksOf(segments[..s]);
      assert before + segments[s][..0] == before;
      for b := 0 to |segments[s]|
        invariant Offline(pending, items) == OfflineAfter(before + segments[s][..b])
      {
        var more;
        pending, more := ConsumeBlock(pending, segments[s][b]);
        items := items + more;
        OfflineAppend(before + segments[s][..b], segments[s][b]);
        assert before + segments[s][..b + 1] == before + segments[s][..b] + [segments[s][b]];
      }
      assert segments[s][..|segments[s]|] == segments[s];
    }
    assert segments[..|segments|] == segments;
    if pending != [] {
      items := items + [None];
    }
  }

  lemma BlocksAppend(segments: seq<seq<Bytes>>, blocks: seq<Bytes>)
    ensures BlocksOf(segments + [blocks]) == BlocksOf(segments) + blocks
    ensures BlocksOf([]) == [] && OfflineAfter([]) == Offline([], [])
  {
    assert (segments + [blocks])[..|segments|] == segments;
  }

  lemma OfflineAppend(blocks: seq<Bytes>, block: Bytes)
    ensures OfflineAfter(blocks + [block]) == Consumed(OfflineAfter(blocks), block)
  {
    assert (blocks + [block])[..|blocks|] == blocks;
  }

  function BlocksOf(segments: seq<seq<Bytes>>): seq<Bytes> {
    if segments == [] then [] else BlocksOf(segments[..|segments| - 1]) + segments[|segments| - 1]
  }

  // ---- the live lines and the stream ---------------------------------------------------------

  /** The live parser counts every newline, however the stream is chunked and however long its lines are. */
  lemma {:induction false} LiveSeesEveryLine(chunks: seq<Bytes>)
    ensures var s := LiveAfter(chunks);
            s.seen == |RawLines(Flatten(chunks))| && |s.partial| <= LIMIT
  {
    if chunks != [] {
      var n := |chunks| - 1;
      LiveSeesEveryLine(chunks[..n]);
      LinesAdd(Flatten(chunks[..n]), chunks[n]);
      LivePartial(chunks[..n]);
      LinesAdd(LiveAfter(chunks[..n]).partial, chunks[n]);
    }
  }

  lemma {:induction false} LivePartial(chunks: seq<Bytes>)
    ensures RawLines(LiveAfter(chunks).partial) == []
  {
    if chunks != [] {
      NoLines(LiveAfter(chunks[..|chunks| - 1]).partial + chunks[|chunks| - 1]);
    }
  }

  /** The number of lines of a concatenation. */
  lemma {:induction false} LinesAdd(a: Bytes, b: Bytes)
    ensures |RawLines(a + b)| == |RawLines(a)| + |RawLines(b)|
    decreases |b|
  {
    if b == [] {
      assert a + b == a;
    } else {
      assert (a + b)[..|a + b| - 1] == a + b[..|b| - 1];
      LinesAdd(a, b[..|b| - 1]);
    }
  }

  lemma LineFits(data: Bytes, i: nat)
    requires LinesFit(data) && i < |RawLines(data)|
    ensures |RawLines(data)[i]| <= LIMIT
  {
  }

  lemma FitsPrefix(head: seq<Bytes>, tail: seq<Bytes>, a: Bytes, all: Bytes)
    requires RawLines(a) == head && RawLines(all) == head + tail && LinesFit(all)
    ensures LinesFit(a)
  {
    assert forall i :: 0 <= i < |head| ==> RawLines(all)[i] == head[i];
  }

  lemma FitsBefore(a: Bytes, b: Bytes)
    requires LinesFit(a + b)
    ensures LinesFit(a)
    ensures |Rest(a)| > LIMIT ==> RawLines(a + b) == RawLines(a) && RawLines(b) == [] && Rest(a + b) == Rest(a) + b
  {
    hide RawLines, Rest, LinesFit;
    CutResumes(a, b);
    FitsPrefix(RawLines(a), RawLines(Rest(a) + b), a, a + b);
    if |Rest(a)| > LIMIT {
      NoLines(a);
      LongRest(Rest(a), b);
      if RawLines(Rest(a) + b) != [] {
        LineFits(a + b, |RawLines(a)|);
        assert false;
      }
      LinesAdd(a, b);
      Unterminated(Rest(a) + b);
    }
  }

  /** The first line of a stream begins with what was left over. */
  lemma {:induction false} LongRest(rest: Bytes, b: Bytes)
    requires RawLines(rest) == [] && Rest(rest) == rest
    ensures if RawLines(rest + b) != [] then |RawLines(rest + b)[0]| >= |rest| else |Rest(rest + b)| >= |rest|
    decreases |b|
  {
    if b == [] {
      assert rest + b == rest;
    } else {
      assert (rest + b)[..|rest + b| - 1] == rest + b[..|b| - 1];
      LongRest(rest, b[..|b| - 1]);
    }
  }

  lemma {:induction false} Unterminated(a: Bytes)
    requires RawLines(a) == []
    ensures Rest(a) == a
  {
    if a != [] {
      Unterminated(a[..|a| - 1]);
    }
  }

  /** Where every terminated line fits, the live parser hands on exactly the lines of the stream. */
  lemma {:induction false} LiveFits(chunks: seq<Bytes>)
    requires LinesFit(Flatten(chunks))
    ensures var s, data := LiveAfter(chunks), Flatten(chunks);
            && s.raw == RawLines(data)
            && (|Rest(data)| <= LIMIT ==> s.partial == Rest(data) && !s.overflow)
  {
    if chunks != [] {
      var n := |chunks| - 1;
      var data := Flatten(chunks[..n]);
      FitsBefore(data, chunks[n]);
      LiveFits(chunks[..n]);
      CutResumes(data, chunks[n]);
      if |Rest(data)| > LIMIT {
        LivePartial(chunks[..n]);
        LinesAdd(LiveAfter(chunks[..n]).partial, chunks[n]);
      }
    }
  }

  // ---- what the live parser can hand on ----------------------------------------------------

  /** `part` is what is left of `whole` when some of its lines are dropped. */
  predicate Among(part: seq<Bytes>, whole: seq<Bytes>) {
    if part == [] then true
    else if whole == [] then false
    else
      var m, n := |part| - 1, |whole| - 1;
      Among(part, whole[..n]) || (part[m] == whole[n] && Among(part[..m], whole[..n]))
  }

  lemma {:induction false} AmongAppend(part: seq<Bytes>, whole: seq<Bytes>, lines: seq<Bytes>)
    requires Among(part, whole)
    ensures Among(part + lines, whole + lines)
    decreases |lines|
  {
    if lines == [] {
      assert part + lines == part && whole + lines == whole;
    } else {
      var n := |lines| - 1;
      AmongAppend(part, whole, lines[..n]);
      var p, w := part + lines, whole + lines;
      assert p[..|p| - 1] == part + lines[..n] && w[..|w| - 1] == whole + lines[..n];
    }
  }

  lemma AmongDropped(part: seq<Bytes>, whole: seq<Bytes>, line: Bytes)
    requires Among(part, whole)
    ensures Among(part, whole + [line])
  {
    assert (whole + [line])[..|whole|] == whole;
  }

  /** Bytes before a stream that hold no newline only lengthen its first line. */
  lemma {:induction false} Lengthened(dropped: Bytes, data: Bytes)
    requires NEWLINE !in dropped
    ensures var raw := RawLines(data);
            && RawLines(dropped + data) == (if raw == [] then [] else [dropped + raw[0]] + raw[1..])
            && Rest(dropped + data) == (if raw == [] then dropped + Rest(data) else Rest(data))
    decreases |data|
  {
    hide RawLines, Rest;
    NothingCut();
    if data == [] {
      assert dropped + data == dropped && dropped + [] == dropped;
      NoNewline(dropped);
    } else {
      var n := |data| - 1;
      var before, last := data[..n], data[n];
      Lengthened(dropped, before);
      assert data == before + [last];
      Associative(dropped, before, [last]);
      CutOne(before, last);
      CutOne(dropped + before, last);
      var raw, rest := RawLines(before), Rest(before);
      assert raw != [] ==> ([dropped + raw[0]] + raw[1..]) + [rest] == [dropped + raw[0]] + (raw + [rest])[1..];
      assert [] + [dropped + rest] == [dropped + rest] + (raw[..0] + [rest])[1..];
      Associative(dropped, rest, [last]);
    }
  }

  lemma CutOne(data: Bytes, last: Byte)
    ensures RawLines(data + [last]) == if last == NEWLINE then RawLines(data) + [Rest(data)] else RawLines(data)
    ensures Rest(data + [last]) == if last == NEWLINE then [] else Rest(data) + [last]
  {
    assert (data + [last])[..|data|] == data;
  }

  /** What the parser dropped of the line it is in; nothing, unless it has overflowed. */
  ghost predicate Dropped(s: Live, data: Bytes, dropped: Bytes) {
    && Rest(data) == dropped + s.partial && NEWLINE !in dropped && (!s.overflow ==> dropped == [])
    && RawLines(s.partial) == [] && Among(s.raw, RawLines(data))
  }

  /**
   However a stream is chunked and however long its lines, the parser hands on only lines of the
   stream, whole and in order: an overlong line may be missing, but no part of one ever appears.
   */
  lemma {:induction false} LiveHandsOnLines(chunks: seq<Bytes>) returns (dropped: Bytes)
    ensures Dropped(LiveAfter(chunks), Flatten(chunks), dropped)
    ensures Among(LiveAfter(chunks).raw, RawLines(Flatten(chunks)))
  {
    hide Observed;
    dropped := [];
    if chunks != [] {
      var n := |chunks| - 1;
      var before := LiveHandsOnLines(chunks[..n]);
      dropped := ChunkHandsOn(LiveAfter(chunks[..n]), Flatten(chunks[..n]), before, chunks[n]);
    }
  }

  lemma ChunkHandsOn(s: Live, data: Bytes, before: Bytes, chunk: Bytes) returns (dropped: Bytes)
    requires Dropped(s, data, before)
    ensures Dropped(Observed(s, chunk), data + chunk, dropped)
  {
    hide RawLines, Rest, Among, Heard;
    var all := s.partial + chunk;
    var raw, rest := RawLines(all), Rest(all);
    ChunkRest(s, data, before, chunk);
    ChunkAmong(s, RawLines(data), before, raw);
    CuttingIsExact(all);
    NoLines(all);
    NothingCut();
    var left := if raw == [] then before else [];
    Shares(left, rest);
    dropped := if |rest| > LIMIT then left + rest else left;
  }

  lemma Shares(left: Bytes, rest: Bytes)
    ensures left + rest + [] == left + rest
    ensures NEWLINE !in left && NEWLINE !in rest ==> NEWLINE !in left + rest
    ensures left == [] ==> left + rest == rest
  {
  }

  lemma ChunkRest(s: Live, data: Bytes, before: Bytes, chunk: Bytes)
    requires Dropped(s, data, before)
    ensures var raw, rest := RawLines(s.partial + chunk), Rest(s.partial + chunk);
            && RawLines(data + chunk) == RawLines(data) + (if raw == [] then [] else [before + raw[0]] + raw[1..])
            && Rest(data + chunk) == (if raw == [] then before else []) + rest
  {
    hide RawLines, Rest, Among;
    CutResumes(data, chunk);
    Lengthened(before, s.partial + chunk);
    Associative(before, s.partial, chunk);
    assert [] + Rest(s.partial + chunk) == Rest(s.partial + chunk);
  }

  lemma ChunkAmong(s: Live, whole: seq<Bytes>, before: Bytes, raw: seq<Bytes>)
    requires Among(s.raw, whole) && (!s.overflow ==> before == [])
    ensures Among(s.raw + Heard(s.overflow, raw), whole + if raw == [] then [] else [before + raw[0]] + raw[1..])
  {
    hide Among;
    if raw == [] {
      assert whole + [] == whole && s.raw + [] == s.raw;
    } else if s.overflow {
      AmongDropped(s.raw, whole, before + raw[0]);
      AmongAppend(s.raw, whole + [before + raw[0]], raw[1..]);
      assert whole + [before + raw[0]] + raw[1..] == whole + ([before + raw[0]] + raw[1..]);
    } else {
      assert [] + raw[0] == raw[0] && [raw[0]] + raw[1..] == raw;
      AmongAppend(s.raw, whole, raw);
    }
  }

  lemma NothingCut()
    ensures RawLines([]) == [] && Rest([]) == []
  {
  }

  /**
   In a stream with an overlong line there is a point where that line already overflows and still
   has its newline to come.
   */
  lemma {:induction false} OverflowPoint(data: Bytes) returns (p: nat)
    requires !LinesFit(data)
    ensures p < |data| && |Rest(data[..p])| > LIMIT && |RawLines(data[..p])| < |RawLines(data)|
  {
    var before := data[..|data| - 1];
    if LinesFit(before) {
      p := |data| - 1;
      assert forall i :: 0 <= i < |RawLines(before)| ==> RawLines(data)[i] == RawLines(before)[i];
    } else {
      p := OverflowPoint(before);
      assert before[..p] == data[..p];
    }
  }

  lemma TwoChunks(a: Bytes, b: Bytes)
    ensures Flatten([a, b]) == a + b && LiveAfter([a, b]) == Observed(Observed(QUIET, a), b)
    ensures OfflineAfter([a, b]) == Consumed(Consumed(Offline([], []), a), b)
  {
    hide Observed, Consumed;
    var none: seq<Bytes>, one, two := [], [a], [a, b];
    assert two[..1] == one && one[..0] == none;
    assert Flatten(one) == a && LiveAfter(one) == Observed(LiveAfter(none), a);
    assert OfflineAfter(one) == Consumed(OfflineAfter(none), a);
    assert Flatten(two) == Flatten(two[..1]) + two[1];
    assert LiveAfter(two) == Observed(LiveAfter(two[..1]), two[1]);
    assert OfflineAfter(two) == Consumed(OfflineAfter(two[..1]), two[1]);
  }

  /** The live lines are those of the stream for every chunking exactly when every terminated line fits. */
  lemma LiveIsExact(data: Bytes)
    ensures (forall chunks :: Flatten(chunks) == data ==> Lines(LiveAfter(chunks).raw) == Lines(RawLines(data)))
            <==> LinesFit(data)
  {
    hide LinesFit, RawLines, Rest, Observed, LiveAfter, Flatten;
    if LinesFit(data) {
      forall chunks | Flatten(chunks) == data ensures LiveAfter(chunks).raw == RawLines(data) {
        LiveFits(chunks);
      }
    } else {
      var p := OverflowPoint(data);
      var a, b := data[..p], data[p..];
      TwoChunks(a, b);
      assert data == a + b;
      LineIsLost(a, b);
      assert |LiveAfter([a, b]).raw| < |RawLines(data)|;
    }
  }

  /** Where a chunk overflows the buffer, the line it overflows with is not handed on. */
  lemma LineIsLost(a: Bytes, b: Bytes)
    requires |Rest(a)| > LIMIT && |RawLines(a)| < |RawLines(a + b)|
    ensures |Observed(Observed(QUIET, a), b).raw| < |RawLines(a + b)|
  {
    hide RawLines, Rest;
    assert [] + a == a && [] + b == b;
    LinesAdd(a, b);
  }

  // ---- the offline items and the stream --------------------------------------------------------

  /** What the offline iterator should yield: every line, and a mark for an unterminated end. */
  function Expected(data: Bytes): seq<Option<Bytes>> {
    Items(RawLines(data)) + if Rest(data) == [] then [] else [None]
  }

  /** The end of the stream leaves at most one mark. */
  predicate EndFits(data: Bytes) {
    |Rest(data)| <= 8193
  }

  lemma ItemsAdd(a: seq<Bytes>, b: seq<Bytes>)
    ensures Items(a + b) == Items(a) + Items(b)
  {
  }

  lemma {:induction false} OfflineFits(blocks: seq<Bytes>)
    requires LinesFit(Flatten(blocks)) && EndFits(Flatten(blocks))
    ensures var s, data := OfflineAfter(blocks), Flatten(blocks);
            if |Rest(data)| <= LIMIT then s == Offline(Rest(data), Items(RawLines(data)))
            else s == Offline([], Items(RawLines(data)) + [None])
  {
    if blocks != [] {
      var n := |blocks| - 1;
      var data, block := Flatten(blocks[..n]), blocks[n];
      FitsBefore(data, block);
      CutResumes(data, block);
      if |Rest(data)| > LIMIT {
        OfflineFits(blocks[..n]);
        assert block == [];
        assert [] + block == [];
        assert data + block == data;
      } else {
        OfflineFits(blocks[..n]);
        ItemsAdd(RawLines(data), RawLines(Rest(data) + block));
      }
    }
  }

  lemma ConsumedCount(s: Offline, block: Bytes)
    ensures |Consumed(s, block).items|
            == |s.items| + |RawLines(s.pending + block)| + if |Rest(s.pending + block)| > LIMIT then 1 else 0
  {
  }

  /**
   The offline items are those of the stream for every blocking exactly when every line fits and
   the end leaves one mark.
   */
  lemma OfflineIsExact(data: Bytes)
    ensures (forall blocks :: Flatten(blocks) == data ==> Yielded(blocks) == Expected(data))
            <==> LinesFit(data) && EndFits(data)
  {
    if LinesFit(data) && EndFits(data) {
      forall blocks | Flatten(blocks) == data ensures Yielded(blocks) == Expected(data) {
        OfflineFits(blocks);
      }
    } else if LinesFit(data) {
      var p := |data| - 1;
      MarkedTwice(data, p);
    } else {
      var p := OverflowPoint(data);
      MarkedTwice(data, p);
    }
  }

  /** Split where the buffer overflows and bytes are still to come, the iterator yields an extra mark. */
  lemma MarkedTwice(data: Bytes, p: nat)
    requires p < |data| && |Rest(data[..p])| > LIMIT
    requires |RawLines(data[..p])| < |RawLines(data)| || Rest(data) != []
    ensures exists blocks :: Flatten(blocks) == data && Yielded(blocks) != Expected(data)
  {
    hide RawLines, Rest, Consumed, OfflineAfter, Flatten;
    var a, b := data[..p], data[p..];
    TwoChunks(a, b);
    assert data == a + b && [] + a == a && [] + b == b;
    LinesAdd(a, b);
    Pending(a);
    ConsumedCount(Offline([], []), a);
    ConsumedCount(Consumed(Offline([], []), a), b);
    PendingEnd(b);
    RestAfter(a, b);
    assert |Yielded([a, b])| > |Expected(data)|;
  }

  lemma Pending(a: Bytes)
    requires |Rest(a)| > LIMIT
    ensures Consumed(Offline([], []), a).pending == []
  {
    assert [] + a == a;
  }

  /** Bytes that end in no newline leave a mark, at once or at the end. */
  lemma PendingEnd(b: Bytes)
    ensures forall s: Offline :: s.pending == [] ==>
              (Consumed(s, b).pending == [] <==> Rest(b) == [] || |Rest(b)| > LIMIT)
  {
    assert [] + b == b;
  }

  /** What is left over of a concatenation is nothing only if nothing is left over of its end. */
  lemma {:induction false} RestAfter(a: Bytes, b: Bytes)
    ensures b != [] && Rest(b) == [] ==> Rest(a + b) == []
  {
    if b != [] {
      assert (a + b)[|a + b| - 1] == b[|b| - 1];
    }
  }

  // ---- where yielded records come from -------------------------------------------------------

  /** A record, its carriage returns and a newline stand together in the stream. */
  ghost predicate StandsIn(data: Bytes, record: Bytes) {
    && (record == [] || record[|record| - 1] != 13)
    && exists a, n: nat, b :: data == a + record + Returns(n) + [10] + b
  }

  ghost predicate AllStandIn(data: Bytes, items: seq<Option<Bytes>>) {
    forall i :: 0 <= i < |items| && items[i].Some? ==> StandsIn(data, items[i].value)
  }

  lemma StandsLonger(before: Bytes, data: Bytes, after: Bytes, record: Bytes)
    requires StandsIn(data, record)
    ensures StandsIn(before + data + after, record)
  {
    var a, n: nat, b :| data == a + record + Returns(n) + [10] + b;
    assert before + data + after == (before + a) + record + Returns(n) + [10] + (b + after);
  }

  /** A line stands between what was joined before it and what comes after. */
  lemma {:induction false} LineStands(raw: seq<Bytes>, i: nat)
    requires i < |raw|
    ensures StandsIn(Joined(raw), Stripped(raw[i]))
  {
    var n := |raw| - 1;
    var front := Joined(raw[..n]);
    if i == n {
      StrippedIsRecord(raw[n]);
      var r := Stripped(raw[n]);
      var k: nat :| raw[n] == r + Returns(k);
      assert front + raw[n] + [10] == front + r + Returns(k) + [10] + [];
    } else {
      LineStands(raw[..n], i);
      StandsLonger([], front, raw[n] + [10], Stripped(raw[i]));
      assert [] + front + (raw[n] + [10]) == front + raw[n] + [10];
    }
  }

  /** What is pending ends the stream so far, and everything yielded so far stands in it. */
  lemma {:induction false} PendingIsSuffix(blocks: seq<Bytes>) returns (before: Bytes)
    ensures Flatten(blocks) == before + OfflineAfter(blocks).pending
    ensures AllStandIn(Flatten(blocks), OfflineAfter(blocks).items)
  {
    before := [];
    if blocks != [] {
      var n := |blocks| - 1;
      var front := PendingIsSuffix(blocks[..n]);
      var s, block := OfflineAfter(blocks[..n]), blocks[n];
      before := StepStands(front, s, Flatten(blocks[..n]), block);
    }
  }

  lemma StepStands(front: Bytes, s: Offline, data: Bytes, block: Bytes) returns (before: Bytes)
    requires data == front + s.pending && AllStandIn(data, s.items)
    ensures data + block == before + Consumed(s, block).pending && AllStandIn(data + block, Consumed(s, block).items)
  {
    hide RawLines, Rest, StandsIn;
    var all := s.pending + block;
    var raw, rest := RawLines(all), Rest(all);
    CuttingIsExact(all);
    assert data + block == front + all;
    before := if |rest| > LIMIT then data + block else front + Joined(raw);
    assert data + block == front + Joined(raw) + rest;
    forall r | StandsIn(data, r) ensures StandsIn(data + block, r) {
      StandsLonger([], data, block, r);
      assert [] + data + block == data + block;
    }
    forall i | 0 <= i < |raw| ensures StandsIn(data + block, Items(raw)[i].value) {
      LineStands(raw, i);
      StandsLonger(front, Joined(raw), rest, Stripped(raw[i]));
    }
    var items := Consumed(s, block).items;
    forall i | 0 <= i < |items| && items[i].Some? ensures StandsIn(data + block, items[i].value) {
      if i < |s.items| {
        assert items[i] == s.items[i];
      } else {
        assert items[i] == Items(raw)[i - |s.items|];
      }
    }
  }

  /** However a stream is blocked and however long its lines, every record yielded stands in it before a newline. */
  lemma YieldedStand(blocks: seq<Bytes>)
    ensures AllStandIn(Flatten(blocks), Yielded(blocks))
  {
    hide StandsIn, Flatten, OfflineAfter;
    var _ := PendingIsSuffix(blocks);
  }

  // ---- all three -------------------------------------------------------------------------------

  /** The lines, and then some marks. */
  function Marked(raw: seq<Bytes>, marks: nat): seq<Option<Bytes>> {
    Items(raw) + seq(marks, _ => None)
  }

  /** The lines among the yielded items. */
  function Shown(items: seq<Option<Bytes>>): seq<Bytes> {
    if items == [] then [] else
    var last := items[|items| - 1];
    Shown(items[..|items| - 1]) + if last.Some? then [last.value] else []
  }

  lemma {:induction false} ShownItems(raw: seq<Bytes>, marks: nat)
    ensures Shown(Marked(raw, marks)) == Lines(raw)
  {
    var items := Marked(raw, marks);
    if marks > 0 {
      assert items[..|items| - 1] == Marked(raw, marks - 1);
      ShownItems(raw, marks - 1);
    } else if raw != [] {
      var n := |raw| - 1;
      assert items[..n] == Marked(raw[..n], 0);
      assert Lines(raw) == Lines(raw[..n]) + [Stripped(raw[n])];
      ShownItems(raw[..n], 0);
    }
  }

  lemma MarkedMore(raw: seq<Bytes>, marks: nat)
    ensures Marked(raw, marks) + [None] == Marked(raw, marks + 1)
    ensures Marked(raw, marks) + Items([]) == Marked(raw, marks)
    ensures Items(raw) == Marked(raw, 0)
  {
  }

  /** The iterator has shown the lines and, if the unterminated end was overlong, left some marks. */
  ghost predicate ShowsLines(s: Offline, data: Bytes) {
    && (exists marks: nat :: s.items == Marked(RawLines(data), marks))
    && (|Rest(data)| <= LIMIT ==> s == Offline(Rest(data), Items(RawLines(data))))
    && RawLines(s.pending) == []
  }

  lemma {:induction false} OfflineShows(blocks: seq<Bytes>)
    requires LinesFit(Flatten(blocks))
    ensures ShowsLines(OfflineAfter(blocks), Flatten(blocks))
  {
    hide RawLines, Rest, ShowsLines, Consumed, LinesFit;
    if blocks != [] {
      var n := |blocks| - 1;
      var data, block := Flatten(blocks[..n]), blocks[n];
      FitsBefore(data, block);
      OfflineShows(blocks[..n]);
      if |Rest(data)| > LIMIT {
        ShowsNothing(OfflineAfter(blocks[..n]), data, block);
      } else {
        ShowsMore(OfflineAfter(blocks[..n]), data, block);
      }
    } else {
      ShowsStart();
    }
  }

  lemma ShowsStart()
    ensures ShowsLines(Offline([], []), [])
  {
    NothingLeft();
    MarkedMore([], 0);
    assert Offline([], []).items == Marked(RawLines([]), 0);
  }

  lemma ShowsNothing(s: Offline, data: Bytes, block: Bytes)
    requires ShowsLines(s, data) && |Rest(data)| > LIMIT
    requires RawLines(data + block) == RawLines(data) && RawLines(block) == []
             && Rest(data + block) == Rest(data) + block
    ensures ShowsLines(Consumed(s, block), data + block)
  {
    hide RawLines, Rest, Marked;
    LinesAdd(s.pending, block);
    NoLines(s.pending + block);
    NoLines([]);
    NothingLeft();
    var marks: nat :| s.items == Marked(RawLines(data), marks);
    MarkedMore(RawLines(data), marks);
  }

  lemma NothingLeft()
    ensures RawLines([]) == [] && Rest([]) == []
  {
  }

  lemma ShowsMore(s: Offline, data: Bytes, block: Bytes)
    requires ShowsLines(s, data) && |Rest(data)| <= LIMIT
    ensures ShowsLines(Consumed(s, block), data + block)
  {
    hide RawLines, Rest, Marked;
    CutResumes(data, block);
    NoLines(data + block);
    NothingLeft();
    ItemsAdd(RawLines(data), RawLines(Rest(data) + block));
    MarkedMore(RawLines(data + block), 0);
  }

  /** Read in one block, any stream shows exactly its lines. */
  lemma OneBlock(data: Bytes)
    ensures Flatten([data]) == data && Shown(Yielded([data])) == Lines(RawLines(data))
  {
    hide RawLines, Rest, Marked, Shown;
    var none: seq<Bytes>, one := [], [data];
    assert one[..0] == none && [] + data == data;
    assert OfflineAfter(one) == Consumed(OfflineAfter(none), data);
    var raw := RawLines(data);
    MarkedMore(raw, 0);
    assert [] + Items(raw) == Items(raw) && Items(raw) + [] == Items(raw);
    assert Items(raw) + [None] + [] == Items(raw) + [None];
    ShownItems(raw, 0);
    ShownItems(raw, 1);
  }

  /** Where every terminated line fits, offline blocks of any size show the lines of the stream. */
  lemma OfflineLines(blocks: seq<Bytes>)
    requires LinesFit(Flatten(blocks))
    ensures Shown(Yielded(blocks)) == Lines(RawLines(Flatten(blocks)))
  {
    hide RawLines, Rest, Flatten, OfflineAfter, LinesFit, Marked, Shown;
    OfflineShows(blocks);
    var s := OfflineAfter(blocks);
    var raw := RawLines(Flatten(blocks));
    var marks: nat :| s.items == Marked(raw, marks);
    ShownItems(raw, marks);
    MarkedMore(raw, marks);
    assert s.items + [] == s.items;
    ShownItems(raw, marks + 1);
  }

  /**
   Live chunks and offline blocks of a stream always give the same lines if and only if no
   terminated line of the stream exceeds the limit.
   */
  lemma LiveAndOfflineAgreeExactly(data: Bytes)
    ensures (forall chunks, blocks :: Flatten(chunks) == data && Flatten(blocks) == data ==>
                                        Lines(LiveAfter(chunks).raw) == Shown(Yielded(blocks)))
            <==> LinesFit(data)
  {
    hide RawLines, Rest, Flatten, OfflineAfter, LiveAfter, LinesFit, Shown, Yielded;
    if LinesFit(data) {
      forall chunks, blocks | Flatten(chunks) == data && Flatten(blocks) == data
        ensures Lines(LiveAfter(chunks).raw) == Shown(Yielded(blocks))
      {
        LiveFits(chunks);
        OfflineLines(blocks);
      }
    } else {
      OneBlock(data);
      LiveIsExact(data);
    }
  }

  /**
   In particular the lines seen live in any chunks, and the lines shown offline from any
   blocks of the segments the recorder rotated, are then the lines of the stream.
   */
  lemma FramingIsIndependent(chunks: seq<Bytes>, rotateBytes: nat, blocks: seq<Bytes>)
    requires LinesFit(Flatten(chunks))
    requires Flatten(blocks) == Flatten(SegmentsAfter(chunks, rotateBytes))
    ensures Lines(LiveAfter(chunks).raw) == Shown(Yielded(blocks)) == Lines(RawLines(Flatten(chunks)))
  {
    hide RawLines, Rest, Flatten, OfflineAfter, LiveAfter, SegmentsAfter, LinesFit, Marked, Shown, Yielded;
    RotationKeepsStream(chunks, rotateBytes);
    LiveFits(chunks);
    OfflineLines(blocks);
  }
}
