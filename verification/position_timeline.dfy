/** The per-driver position timeline: for every session driver, the running
    position held over each lap as (start, end, position, lap) segments in
    session time. */
module PositionTimeline {
  import opened Options
  import opened Seqs
  import opened Sorting
  import opened OrderedMaps
  import opened Results
  import opened Laps
  import opened Telemetry
  import opened LapTimeline

  datatype Segment = Segment(start: real, end: real, position: int, lap: int)

  /** A lap interval before rows without a position are dropped. */
  datatype Span = Span(start: real, end: real, position: Option<int>, lap: int)

  /** How long the last lap of a driver without telemetry is taken to last. */
  const UntrackedLastLap: real := 200.0

  /** The driver's laps that carry a start time, in lap-table order. */
  function TimedLapsOf(laps: seq<LapRecord>, d: string): (rows: seq<LapRecord>)
    ensures forall i :: 0 <= i < |rows| ==> rows[i].driver == d && rows[i].start.Some? && rows[i] in laps
    ensures forall i :: 0 <= i < |laps| && laps[i].driver == d && laps[i].start.Some? ==> laps[i] in rows
    ensures |rows| > 0 <==> HasTimedLap(laps, d)
  {
    if |laps| == 0 then []
    else
      var rest := TimedLapsOf(laps[1..], d);
      assert forall i :: 1 <= i < |laps| ==> laps[i] == laps[1..][i - 1];
      assert HasTimedLap(laps, d) <==> (laps[0].driver == d && laps[0].start.Some?) || HasTimedLap(laps[1..], d) by {
        if HasTimedLap(laps[1..], d) {
          var i :| 0 <= i < |laps[1..]| && laps[1..][i].driver == d && laps[1..][i].start.Some?;
          assert laps[i + 1] == laps[1..][i];
        }
      }
      if laps[0].driver == d && laps[0].start.Some? then [laps[0]] + rest else rest
  }

  /** The driver's laps that carry a start time, ordered by lap number. */
  function TimedRows(laps: seq<LapRecord>, d: string): (rows: seq<LapRecord>)
    ensures forall i :: 0 <= i < |rows| ==> rows[i].driver == d && rows[i].start.Some? && rows[i] in laps
    ensures multiset(rows) == multiset(TimedLapsOf(laps, d))
    ensures SortedBy(rows, LapNumberOf)
    ensures |rows| > 0 <==> HasTimedLap(laps, d)
  {
    var mine := TimedLapsOf(laps, d);
    var rows := SortByKey(mine, LapNumberOf);
    forall i | 0 <= i < |rows| ensures rows[i] in mine {
      assert rows[i] in multiset(mine);
    }
    rows
  }

  /** No timed lap of the driver is left out of the timed rows. */
  lemma TimedRowsComplete(laps: seq<LapRecord>, d: string)
    ensures forall i :: 0 <= i < |laps| && laps[i].driver == d && laps[i].start.Some? ==> laps[i] in TimedRows(laps, d)
  {
    var rows := TimedRows(laps, d);
    forall i | 0 <= i < |laps| && laps[i].driver == d && laps[i].start.Some? ensures laps[i] in rows {
      assert laps[i] in multiset(TimedLapsOf(laps, d));
      assert laps[i] in multiset(rows);
    }
  }

  /** The grid slot used for a driver without timed laps: the results table's
      grid position as stored, or 20 when the driver has no results row. */
  function FallbackGrid(status: StatusTable, d: string): int {
    match Lookup(status, d)
    case Some(st) => st.grid
    case None => DefaultGrid
  }

  /** The driver's latest telemetry timestamp, when they have telemetry. */
  function LatestSample(data: seq<Binding<string, Trace>>, d: string): (m: Option<real>)
    requires forall i :: 0 <= i < |data| ==> |data[i].value.ts| > 0
    ensures m.Some? <==> HasKey(data, d)
    ensures m.Some? ==> Lookup(data, d).Some? && m.value == Max(Lookup(data, d).value.ts)
  {
    if |data| == 0 then None
    else if data[0].key == d then Some(Max(data[0].value.ts))
    else
      var m := LatestSample(data[1..], d);
      assert forall i :: 1 <= i < |data| ==> data[i] == data[1..][i - 1];
      assert IndexOf(data, d) == 1 + IndexOf(data[1..], d);
      m
  }

  /** Where the driver's last lap ends: their last telemetry sample in session
      time, or 200 seconds after it starts when they have no telemetry. */
  function FinalEnd(rows: seq<LapRecord>, d: string, data: seq<Binding<string, Trace>>, globalStart: Option<real>): real
    requires |rows| > 0 && forall i :: 0 <= i < |rows| ==> rows[i].start.Some?
    requires forall i :: 0 <= i < |data| ==> |data[i].value.ts| > 0
    requires |data| > 0 ==> globalStart.Some?
  {
    match LatestSample(data, d)
    case Some(m) => m + globalStart.value
    case None => Last(rows).start.value + UntrackedLastLap
  }

  /** Each timed lap runs until the next one starts; the last until `finalEnd`. */
  function SpansOf(rows: seq<LapRecord>, finalEnd: real): (r: seq<Span>)
    requires forall i :: 0 <= i < |rows| ==> rows[i].start.Some?
    ensures |r| == |rows|
    ensures forall i {:trigger r[i]} :: 0 <= i < |r| ==>
      r[i].start == rows[i].start.value && r[i].position == rows[i].position && r[i].lap == rows[i].lap
    ensures SpansMeet(r)
    ensures |r| > 0 ==> Last(r).end == finalEnd
  {
    seq(|rows|, i requires 0 <= i < |rows| =>
      Span(rows[i].start.value, if i + 1 < |rows| then rows[i + 1].start.value else finalEnd, rows[i].position, rows[i].lap))
  }

  /** Every span ends where the next one starts. */
  predicate SpansMeet(spans: seq<Span>) {
    forall i :: 0 <= i < |spans| - 1 ==> spans[i].end == spans[i + 1].start
  }

  /** Spans are in lap order. */
  predicate SpansByLap(spans: seq<Span>) {
    forall i, j :: 0 <= i < j < |spans| ==> spans[i].lap <= spans[j].lap
  }

  /** Segments are in lap order. */
  predicate SegmentsByLap(segs: seq<Segment>) {
    forall i, j :: 0 <= i < j < |segs| ==> segs[i].lap <= segs[j].lap
  }

  /** Every segment ends where the next one starts. */
  predicate SegmentsMeet(segs: seq<Segment>) {
    forall i :: 0 <= i < |segs| - 1 ==> segs[i].end == segs[i + 1].start
  }

  function SegmentOf(s: Span): Segment
    requires s.position.Some?
  {
    Segment(s.start, s.end, s.position.value, s.lap)
  }

  /** The span a segment was made from. */
  function SpanOf(seg: Segment): (s: Span)
    ensures s.position.Some? && SegmentOf(s) == seg
  {
    Span(seg.start, seg.end, Some(seg.position), seg.lap)
  }

  function HasPosition(s: Span): bool { s.position.Some? }

  /** The spans a sequence of segments was made from, in order. */
  function Unplaced(segs: seq<Segment>): (r: seq<Span>)
    ensures |r| == |segs| && forall i :: 0 <= i < |segs| ==> r[i] == SpanOf(segs[i])
  {
    seq(|segs|, i requires 0 <= i < |segs| => SpanOf(segs[i]))
  }

  /** The spans that have a position, in order. */
  function Placed(spans: seq<Span>): (r: seq<Segment>)
    ensures |r| <= |spans|
    ensures forall i :: 0 <= i < |r| ==> SpanOf(r[i]) in spans
  {
    if |spans| == 0 then []
    else
      var rest := Placed(spans[1..]);
      assert forall i :: 0 <= i < |rest| ==> SpanOf(rest[i]) in spans by {
        forall i | 0 <= i < |rest| ensures SpanOf(rest[i]) in spans {
          var j :| 0 <= j < |spans[1..]| && spans[1..][j] == SpanOf(rest[i]);
          assert spans[j + 1] == SpanOf(rest[i]);
        }
      }
      if spans[0].position.Some? then
        var r := [SegmentOf(spans[0])] + rest;
        assert forall i :: 1 <= i < |r| ==> r[i] == rest[i - 1];
        r
      else rest
  }

  /** Turned back into spans, the placed segments are exactly the spans with
      a position, in their order. */
  lemma {:induction false} PlacedIsFilter(spans: seq<Span>)
    ensures Unplaced(Placed(spans)) == Filter(spans, HasPosition)
  {
    if |spans| > 0 {
      var rest := Placed(spans[1..]);
      PlacedIsFilter(spans[1..]);
      if HasPosition(spans[0]) {
        assert Filter(spans, HasPosition) == [spans[0]] + Filter(spans[1..], HasPosition);
        assert Placed(spans) == [SegmentOf(spans[0])] + rest;
        assert SpanOf(SegmentOf(spans[0])) == spans[0];
        UnplacedCons(SegmentOf(spans[0]), rest);
      } else {
        assert Filter(spans, HasPosition) == Filter(spans[1..], HasPosition);
        assert Placed(spans) == rest;
      }
    }
  }

  lemma UnplacedCons(seg: Segment, rest: seq<Segment>)
    ensures Unplaced([seg] + rest) == [SpanOf(seg)] + Unplaced(rest)
  {
    var u := Unplaced([seg] + rest);
    assert forall i :: 1 <= i < |u| ==> u[i] == Unplaced(rest)[i - 1];
  }

  /** A span with a position is placed: its segment is in the result. */
  lemma {:induction false} PlacedKeeps(spans: seq<Span>, k: nat) returns (i: nat)
    requires k < |spans| && HasPosition(spans[k])
    ensures i < |Placed(spans)| && Placed(spans)[i] == SegmentOf(spans[k])
  {
    var rest := Placed(spans[1..]);
    if HasPosition(spans[0]) {
      assert Placed(spans) == [SegmentOf(spans[0])] + rest;
      if k == 0 {
        i := 0;
      } else {
        var i' := PlacedKeeps(spans[1..], k - 1);
        i := i' + 1;
      }
    } else {
      assert Placed(spans) == rest;
      i := PlacedKeeps(spans[1..], k - 1);
    }
  }

  /** When every span has a position, none is dropped. */
  lemma {:induction false} PlacedAllPresent(spans: seq<Span>)
    requires forall j :: 0 <= j < |spans| ==> spans[j].position.Some?
    ensures |Placed(spans)| == |spans|
    ensures forall i :: 0 <= i < |spans| ==> Placed(spans)[i] == SegmentOf(spans[i])
  {
    if |spans| > 0 {
      var tail := spans[1..];
      assert forall j :: 0 <= j < |tail| ==> tail[j] == spans[j + 1];
      PlacedAllPresent(tail);
      var r, rest := Placed(spans), Placed(tail);
      assert r == [SegmentOf(spans[0])] + rest;
      forall i | 0 <= i < |spans| ensures r[i] == SegmentOf(spans[i]) {
        if i > 0 {
          assert r[i] == rest[i - 1] && tail[i - 1] == spans[i];
        }
      }
    }
  }

  /** Dropping spans keeps them in lap order. */
  lemma {:induction false} PlacedKeepsLapOrder(spans: seq<Span>)
    requires SpansByLap(spans)
    ensures SegmentsByLap(Placed(spans))
  {
    if |spans| > 0 {
      var tail := spans[1..];
      assert forall j :: 0 <= j < |tail| ==> tail[j] == spans[j + 1];
      PlacedKeepsLapOrder(tail);
      var r, rest := Placed(spans), Placed(tail);
      if spans[0].position.Some? {
        PlacedLapsAtLeast(tail, spans[0].lap);
        assert r == [SegmentOf(spans[0])] + rest;
        ConsKeepsLapOrder(SegmentOf(spans[0]), rest);
      } else {
        assert r == rest;
      }
    }
  }

  /** A segment on a lap no later than any of `rest`'s keeps lap order when
      put in front. */
  lemma ConsKeepsLapOrder(seg: Segment, rest: seq<Segment>)
    requires SegmentsByLap(rest)
    requires forall i :: 0 <= i < |rest| ==> seg.lap <= rest[i].lap
    ensures SegmentsByLap([seg] + rest)
  {
    var r := [seg] + rest;
    forall i, j | 0 <= i < j < |r| ensures r[i].lap <= r[j].lap {
      assert r[j] == rest[j - 1];
      if i > 0 {
        assert r[i] == rest[i - 1];
      }
    }
  }

  /** A lower bound on the spans' laps bounds the placed segments' laps. */
  lemma PlacedLapsAtLeast(spans: seq<Span>, lap: int)
    requires forall j :: 0 <= j < |spans| ==> lap <= spans[j].lap
    ensures forall i :: 0 <= i < |Placed(spans)| ==> lap <= Placed(spans)[i].lap
  {
    var r := Placed(spans);
    forall i | 0 <= i < |r| ensures lap <= r[i].lap {
      var j :| 0 <= j < |spans| && spans[j] == SpanOf(r[i]);
    }
  }

  /** `row` is a timed lap of `d` whose start, position and lap number are
      those of `seg`. */
  predicate RecordedAs(row: LapRecord, seg: Segment, d: string) {
    row.driver == d && row.start == Some(seg.start) && row.position == Some(seg.position) && row.lap == seg.lap
  }

  /** Some segment of `segs` records `row`. */
  predicate HasSegment(row: LapRecord, segs: seq<Segment>, d: string) {
    exists i :: 0 <= i < |segs| && RecordedAs(row, segs[i], d)
  }

  predicate HasTimedLap(laps: seq<LapRecord>, d: string) {
    exists i :: 0 <= i < |laps| && laps[i].driver == d && laps[i].start.Some?
  }

  /** The segments of the timed laps `rows` of `d`, the last ending at
      `finalEnd`: one per row that has a position, in lap order. */
  function TimedSegments(laps: seq<LapRecord>, d: string, rows: seq<LapRecord>, finalEnd: real): (r: seq<Segment>)
    requires forall i :: 0 <= i < |rows| ==> rows[i].driver == d && rows[i].start.Some? && rows[i] in laps
    requires SortedBy(rows, LapNumberOf)
    ensures forall i :: 0 <= i < |r| ==> exists j :: 0 <= j < |laps| && RecordedAs(laps[j], r[i], d)
    ensures forall k :: 0 <= k < |rows| && rows[k].position.Some? ==> HasSegment(rows[k], r, d)
    ensures SegmentsByLap(r)
  {
    var spans := SpansOf(rows, finalEnd);
    PlacedRecorded(laps, d, rows, spans);
    PlacedComplete(d, rows, spans);
    SpansInLapOrder(rows, spans);
    PlacedKeepsLapOrder(spans);
    Placed(spans)
  }

  lemma PlacedRecorded(laps: seq<LapRecord>, d: string, rows: seq<LapRecord>, spans: seq<Span>)
    requires forall i :: 0 <= i < |rows| ==> rows[i].driver == d && rows[i].start.Some? && rows[i] in laps
    requires |spans| == |rows|
    requires forall i {:trigger spans[i]} :: 0 <= i < |spans| ==>
      spans[i].start == rows[i].start.value && spans[i].position == rows[i].position && spans[i].lap == rows[i].lap
    ensures var r := Placed(spans);
      forall i :: 0 <= i < |r| ==> exists j :: 0 <= j < |laps| && RecordedAs(laps[j], r[i], d)
  {
    var r := Placed(spans);
    forall i | 0 <= i < |r| ensures exists j :: 0 <= j < |laps| && RecordedAs(laps[j], r[i], d) {
      var k :| 0 <= k < |spans| && spans[k] == SpanOf(r[i]);
      var j :| 0 <= j < |laps| && laps[j] == rows[k];
      assert RecordedAs(laps[j], r[i], d);
    }
  }

  /** No row with a position is dropped. */
  lemma PlacedComplete(d: string, rows: seq<LapRecord>, spans: seq<Span>)
    requires forall i :: 0 <= i < |rows| ==> rows[i].driver == d && rows[i].start.Some?
    requires |spans| == |rows|
    requires forall i {:trigger spans[i]} :: 0 <= i < |spans| ==>
      spans[i].start == rows[i].start.value && spans[i].position == rows[i].position && spans[i].lap == rows[i].lap
    ensures forall k :: 0 <= k < |rows| && rows[k].position.Some? ==> HasSegment(rows[k], Placed(spans), d)
  {
    forall k | 0 <= k < |rows| && rows[k].position.Some? ensures HasSegment(rows[k], Placed(spans), d) {
      assert spans[k].start == rows[k].start.value && spans[k].position == rows[k].position;
      var i := PlacedKeeps(spans, k);
      assert RecordedAs(rows[k], Placed(spans)[i], d);
    }
  }

  lemma SpansInLapOrder(rows: seq<LapRecord>, spans: seq<Span>)
    requires SortedBy(rows, LapNumberOf)
    requires |spans| == |rows|
    requires forall i {:trigger spans[i]} :: 0 <= i < |spans| ==> spans[i].lap == rows[i].lap
    ensures SpansByLap(spans)
  {
    forall i, j | 0 <= i < j < |spans| ensures spans[i].lap <= spans[j].lap {
      assert LapNumberOf(rows[i]) <= LapNumberOf(rows[j]);
    }
  }

  /** `build_position_timeline` for one driver. Without a timed lap the
      driver gets a single one-second segment at the session start holding
      their grid slot, on lap 0. Otherwise every timed lap with a position
      becomes a segment, in lap order. */
  function DriverSegments(laps: seq<LapRecord>, d: string, status: StatusTable,
                          data: seq<Binding<string, Trace>>, globalStart: Option<real>): (r: seq<Segment>)
    requires forall i :: 0 <= i < |data| ==> |data[i].value.ts| > 0
    requires |data| > 0 ==> globalStart.Some?
    ensures !HasTimedLap(laps, d) ==>
      r == [Segment(globalStart.GetOr(0.0), globalStart.GetOr(0.0) + 1.0, FallbackGrid(status, d), 0)]
    ensures HasTimedLap(laps, d) ==>
      forall i :: 0 <= i < |r| ==> exists j :: 0 <= j < |laps| && RecordedAs(laps[j], r[i], d)
    ensures SegmentsByLap(r)
  {
    var rows := TimedRows(laps, d);
    if |rows| == 0 then
      var s0 := globalStart.GetOr(0.0);
      [Segment(s0, s0 + 1.0, FallbackGrid(status, d), 0)]
    else
      var fe := FinalEnd(rows, d, data, globalStart);
      TimedSegments(laps, d, rows, fe)
  }

  /** No timed lap of the driver that has a position is left out of the
      driver's segments. */
  lemma DriverSegmentsComplete(laps: seq<LapRecord>, d: string, status: StatusTable,
                               data: seq<Binding<string, Trace>>, globalStart: Option<real>)
    requires forall i :: 0 <= i < |data| ==> |data[i].value.ts| > 0
    requires |data| > 0 ==> globalStart.Some?
    ensures var r := DriverSegments(laps, d, status, data, globalStart);
      forall j :: 0 <= j < |laps| && laps[j].driver == d && laps[j].start.Some? && laps[j].position.Some? ==>
        HasSegment(laps[j], r, d)
  {
    var rows := TimedRows(laps, d);
    TimedRowsComplete(laps, d);
    if |rows| > 0 {
      var fe := FinalEnd(rows, d, data, globalStart);
      var r := TimedSegments(laps, d, rows, fe);
      assert DriverSegments(laps, d, status, data, globalStart) == r;
      TimedLapsRecorded(laps, d, rows, r);
    }
  }

  /** Every timed lap of `d` is one of `rows`, and every row with a position
      is recorded in `r`: so is every timed lap of `d` with a position. */
  lemma TimedLapsRecorded(laps: seq<LapRecord>, d: string, rows: seq<LapRecord>, r: seq<Segment>)
    requires forall i :: 0 <= i < |laps| && laps[i].driver == d && laps[i].start.Some? ==> laps[i] in rows
    requires forall k :: 0 <= k < |rows| && rows[k].position.Some? ==> HasSegment(rows[k], r, d)
    ensures forall j :: 0 <= j < |laps| && laps[j].driver == d && laps[j].start.Some? && laps[j].position.Some? ==>
      HasSegment(laps[j], r, d)
  {
    forall j | 0 <= j < |laps| && laps[j].driver == d && laps[j].start.Some? && laps[j].position.Some?
      ensures HasSegment(laps[j], r, d)
    {
      var k :| 0 <= k < |rows| && rows[k] == laps[j];
    }
  }

  /** When every timed lap of the driver has a position, the segments are one
      per timed lap, each ending where the next starts, the last ending at the
      driver's final time. */
  lemma SegmentsContiguousWhenPlaced(laps: seq<LapRecord>, d: string, status: StatusTable,
                                     data: seq<Binding<string, Trace>>, globalStart: Option<real>)
    requires forall i :: 0 <= i < |data| ==> |data[i].value.ts| > 0
    requires |data| > 0 ==> globalStart.Some?
    requires HasTimedLap(laps, d)
    requires forall i :: 0 <= i < |laps| && laps[i].driver == d && laps[i].start.Some? ==> laps[i].position.Some?
    ensures |TimedRows(laps, d)| > 0
    ensures var r := DriverSegments(laps, d, status, data, globalStart);
      && |r| == |TimedRows(laps, d)|
      && SegmentsMeet(r)
      && Last(r).end == FinalEnd(TimedRows(laps, d), d, data, globalStart)
  {
    var rows := TimedRows(laps, d);
    var fe := FinalEnd(rows, d, data, globalStart);
    TimedRowsPlaced(laps, d);
    RowsPlacedMeet(rows, fe);
    DriverSegmentsAreTimed(laps, d, status, data, globalStart);
  }

  /** Rows that all have a position give one segment each, each ending where
      the next starts, the last ending at `finalEnd`. */
  lemma RowsPlacedMeet(rows: seq<LapRecord>, finalEnd: real)
    requires forall i :: 0 <= i < |rows| ==> rows[i].start.Some? && rows[i].position.Some?
    ensures var r := Placed(SpansOf(rows, finalEnd));
      && |r| == |rows|
      && SegmentsMeet(r)
      && (|rows| > 0 ==> Last(r).end == finalEnd)
  {
    var spans := SpansOf(rows, finalEnd);
    assert forall k :: 0 <= k < |spans| ==> spans[k].position == rows[k].position;
    PlacedKeepsMeeting(spans);
  }

  /** When every timed lap of `d` has a position, so does every timed row. */
  lemma TimedRowsPlaced(laps: seq<LapRecord>, d: string)
    requires forall i :: 0 <= i < |laps| && laps[i].driver == d && laps[i].start.Some? ==> laps[i].position.Some?
    ensures forall k :: 0 <= k < |TimedRows(laps, d)| ==> TimedRows(laps, d)[k].position.Some?
  {
    var rows := TimedRows(laps, d);
    forall k | 0 <= k < |rows| ensures rows[k].position.Some? {
      var j :| 0 <= j < |laps| && laps[j] == rows[k];
    }
  }

  /** With a timed lap, the driver's segments are the placed spans of the
      timed rows. */
  lemma DriverSegmentsAreTimed(laps: seq<LapRecord>, d: string, status: StatusTable,
                               data: seq<Binding<string, Trace>>, globalStart: Option<real>)
    requires forall i :: 0 <= i < |data| ==> |data[i].value.ts| > 0
    requires |data| > 0 ==> globalStart.Some?
    requires |TimedRows(laps, d)| > 0
    ensures var rows := TimedRows(laps, d);
      DriverSegments(laps, d, status, data, globalStart)
        == Placed(SpansOf(rows, FinalEnd(rows, d, data, globalStart)))
  {
    var rows := TimedRows(laps, d);
    var fe := FinalEnd(rows, d, data, globalStart);
    assert DriverSegments(laps, d, status, data, globalStart) == TimedSegments(laps, d, rows, fe);
  }

  /** With no span dropped, meeting spans give meeting segments with the same
      final end. */
  lemma PlacedKeepsMeeting(spans: seq<Span>)
    requires forall k :: 0 <= k < |spans| ==> spans[k].position.Some?
    requires SpansMeet(spans)
    ensures |Placed(spans)| == |spans|
    ensures SegmentsMeet(Placed(spans))
    ensures |spans| > 0 ==> Last(Placed(spans)).end == Last(spans).end
  {
    var r := Placed(spans);
    PlacedAllPresent(spans);
    forall i | 0 <= i < |r| - 1 ensures r[i].end == r[i + 1].start {
      assert r[i] == SegmentOf(spans[i]) && r[i + 1] == SegmentOf(spans[i + 1]);
    }
    if |spans| > 0 {
      assert r[|r| - 1] == SegmentOf(spans[|spans| - 1]);
    }
  }

  /** A timed lap without a position leaves a hole: the segments before and
      after it no longer meet. */
  lemma MissingPositionLeavesGap()
    ensures DriverSegments(GapLaps(), "1", [], [], None) == [Segment(100.0, 190.0, 3, 1), Segment(280.0, 480.0, 2, 3)]
  {
    var laps := GapLaps();
    var rows := TimedRows(laps, "1");
    assert rows == laps by { GapLapsTimed(); }
    var fe := FinalEnd(rows, "1", [], None);
    assert fe == 480.0;
    var spans := SpansOf(laps, 480.0);
    assert DriverSegments(laps, "1", [], [], None) == Placed(spans);
    GapSpans();
    GapPlaced(spans);
  }

  lemma GapSpans()
    ensures SpansOf(GapLaps(), 480.0) ==
      [Span(100.0, 190.0, Some(3), 1), Span(190.0, 280.0, None, 2), Span(280.0, 480.0, Some(2), 3)]
  {
    var spans := SpansOf(GapLaps(), 480.0);
    assert |spans| == 3;
    assert spans[0] == Span(100.0, 190.0, Some(3), 1);
    assert spans[1] == Span(190.0, 280.0, None, 2);
    assert spans[2] == Span(280.0, 480.0, Some(2), 3);
  }

  lemma GapPlaced(spans: seq<Span>)
    requires spans == [Span(100.0, 190.0, Some(3), 1), Span(190.0, 280.0, None, 2), Span(280.0, 480.0, Some(2), 3)]
    ensures Placed(spans) == [Segment(100.0, 190.0, 3, 1), Segment(280.0, 480.0, 2, 3)]
  {
    assert Placed(spans[2..]) == [Segment(280.0, 480.0, 2, 3)] by {
      assert spans[2..][1..] == [];
    }
    assert spans[1..][1..] == spans[2..];
  }

  /** Driver "1" on laps 1 to 3, with no position recorded for lap 2. */
  function GapLaps(): seq<LapRecord> {
    [LapRecord("1", 1, Some(3), None, Some(100.0), None, None),
     LapRecord("1", 2, None, None, Some(190.0), None, None),
     LapRecord("1", 3, Some(2), None, Some(280.0), None, None)]
  }

  lemma GapLapsTimed()
    ensures TimedRows(GapLaps(), "1") == GapLaps()
  {
    GapLapsAllTimed();
    GapLapsSorted();
    SortSortedIsIdentity(GapLaps(), LapNumberOf);
  }

  lemma GapLapsAllTimed()
    ensures TimedLapsOf(GapLaps(), "1") == GapLaps()
  {
    var laps := GapLaps();
    assert TimedLapsOf(laps[2..], "1") == laps[2..] by {
      assert laps[2..][1..] == [];
    }
    assert laps[1..][1..] == laps[2..];
    assert TimedLapsOf(laps[1..], "1") == laps[1..];
  }

  lemma GapLapsSorted()
    ensures SortedBy(GapLaps(), LapNumberOf)
  {
    var laps := GapLaps();
    forall i, j | 0 <= i < j < |laps| ensures LapNumberOf(laps[i]) <= LapNumberOf(laps[j]) {
      assert laps[i].lap == i + 1 && laps[j].lap == j + 1;
    }
  }

  /** `build_position_timeline`: a segment list for every session driver. */
  function BuildPositionTimeline(laps: seq<LapRecord>, drivers: seq<string>, status: StatusTable,
                                 data: seq<Binding<string, Trace>>, globalStart: Option<real>): (m: map<string, seq<Segment>>)
    requires forall i :: 0 <= i < |data| ==> |data[i].value.ts| > 0
    requires |data| > 0 ==> globalStart.Some?
    ensures m.Keys == set d | d in drivers
    ensures forall d :: d in m && !HasTimedLap(laps, d) ==> |m[d]| == 1 && m[d][0].lap == 0
    ensures forall d :: d in m ==> m[d] == DriverSegments(laps, d, status, data, globalStart)
  {
    map d | d in drivers :: DriverSegments(laps, d, status, data, globalStart)
  }
}
