/** The lap timeline: contiguous (start, end, lap) intervals built from the race
    leader's lap-start times, and the lookup from replay time to lap number. */
module LapTimeline {
  import opened Options
  import opened Seqs
  import opened Sorting
  import opened OrderedMaps
  import opened Laps
  import opened Telemetry

  datatype LapEntry = LapEntry(start: real, end: real, lap: int)

  /** Each lap ends where the next one starts; the last one ends at `finalEnd`. */
  function Chain(starts: seq<real>, laps: seq<int>, finalEnd: real): (r: seq<LapEntry>)
    requires |laps| == |starts|
    ensures |r| == |starts|
    ensures forall i :: 0 <= i < |r| ==> r[i].start == starts[i] && r[i].lap == laps[i]
    ensures Contiguous(r)
    ensures |r| > 0 ==> Last(r).end == finalEnd
  {
    seq(|starts|, i requires 0 <= i < |starts| =>
      LapEntry(starts[i], if i + 1 < |starts| then starts[i + 1] else finalEnd, laps[i]))
  }

  predicate Contiguous(tl: seq<LapEntry>) {
    forall i :: 0 <= i < |tl| - 1 ==> tl[i].end == tl[i + 1].start
  }

  function LapNumberOf(r: LapRecord): int { r.lap }

  function HasStart(r: LapRecord): bool { r.start.Some? }

  function IsLeaderLap(r: LapRecord): bool { r.position == Some(1) }

  /** Picks the laps of `driver`. */
  function DrivenBy(driver: string): LapRecord -> bool {
    (r: LapRecord) => r.driver == driver
  }

  /** The laps timed at position 1; when there are none, every lap of the
      driver on the first usable row. */
  function LeaderLaps(valid: seq<LapRecord>): (r: seq<LapRecord>)
    requires |valid| > 0
    ensures |r| > 0
    ensures (exists i :: 0 <= i < |valid| && IsLeaderLap(valid[i])) ==>
      forall j :: 0 <= j < |r| ==> r[j] in valid && r[j].position == Some(1)
    ensures (forall i :: 0 <= i < |valid| ==> !IsLeaderLap(valid[i])) ==>
      forall j :: 0 <= j < |r| ==> r[j] in valid && r[j].driver == valid[0].driver
    ensures forall i :: 0 <= i < |valid| && IsLeaderLap(valid[i]) ==> valid[i] in r
    ensures (forall i :: 0 <= i < |valid| ==> !IsLeaderLap(valid[i])) ==>
      forall i :: 0 <= i < |valid| && valid[i].driver == valid[0].driver ==> valid[i] in r
  {
    var p1 := Filter(valid, IsLeaderLap);
    if |p1| > 0 then
      assert forall j :: 0 <= j < |p1| ==> p1[j] in p1;
      assert p1[0] in valid && IsLeaderLap(p1[0]);
      assert exists i :: 0 <= i < |valid| && IsLeaderLap(valid[i]);
      p1
    else
      assert forall i :: 0 <= i < |valid| ==> valid[i] in valid;
      var first := valid[0].driver;
      var r := Filter(valid, DrivenBy(first));
      assert forall i :: 0 <= i < |valid| && valid[i].driver == first ==> valid[i] in r;
      assert forall j :: 0 <= j < |r| ==> r[j] in r;
      r
  }

  /** The leader's laps, once sorted, all carry a start time. */
  lemma LeaderRowsTimed(valid: seq<LapRecord>, leader: seq<LapRecord>)
    requires |valid| > 0 && forall i :: 0 <= i < |valid| ==> HasStart(valid[i])
    requires multiset(leader) == multiset(LeaderLaps(valid))
    ensures forall i :: 0 <= i < |leader| ==> leader[i].start.Some?
  {
    forall i | 0 <= i < |leader| ensures leader[i].start.Some? {
      assert leader[i] in multiset(LeaderLaps(valid));
    }
  }

  function StartsOf(rows: seq<LapRecord>): (r: seq<real>)
    requires forall i :: 0 <= i < |rows| ==> rows[i].start.Some?
    ensures |r| == |rows| && forall i :: 0 <= i < |rows| ==> r[i] == rows[i].start.value
  {
    seq(|rows|, i requires 0 <= i < |rows| => rows[i].start.value)
  }

  function LapsOf(rows: seq<LapRecord>): (r: seq<int>)
    ensures |r| == |rows| && forall i :: 0 <= i < |rows| ==> r[i] == rows[i].lap
  {
    seq(|rows|, i requires 0 <= i < |rows| => rows[i].lap)
  }

  /** Latest telemetry timestamp over all drivers. */
  function LatestTimestamp(data: seq<Binding<string, Trace>>): (m: real)
    requires |data| > 0
    requires forall i :: 0 <= i < |data| ==> |data[i].value.ts| > 0
    ensures forall i, j :: 0 <= i < |data| && 0 <= j < |data[i].value.ts| ==> data[i].value.ts[j] <= m
    ensures exists i :: 0 <= i < |data| && m in data[i].value.ts
  {
    var m := Max(data[0].value.ts);
    if |data| == 1 then m
    else
      var m' := LatestTimestamp(data[1..]);
      assert forall i :: 1 <= i < |data| ==> data[i] == data[1..][i - 1];
      if m' > m then m' else m
  }

  /** The leader's laps ordered by lap number: a reordering of `LeaderLaps`,
      every row timed. */
  function LeaderRows(valid: seq<LapRecord>): (rows: seq<LapRecord>)
    requires |valid| > 0 && forall i :: 0 <= i < |valid| ==> HasStart(valid[i])
    ensures |rows| > 0 && multiset(rows) == multiset(LeaderLaps(valid))
    ensures SortedBy(rows, LapNumberOf)
    ensures forall i :: 0 <= i < |rows| ==> rows[i].start.Some?
  {
    var rows := SortByKey(LeaderLaps(valid), LapNumberOf);
    LeaderRowsTimed(valid, rows);
    rows
  }

  /** The sorted leader rows hold each lap at position 1 as often as the
      usable laps do, or, when no lap is at position 1, each lap of the
      driver on the first usable row; nothing else. So the timeline has
      one entry per such lap. */
  lemma LeaderRowsCount(valid: seq<LapRecord>)
    requires |valid| > 0 && forall i :: 0 <= i < |valid| ==> HasStart(valid[i])
    ensures (exists i :: 0 <= i < |valid| && IsLeaderLap(valid[i])) ==>
      forall x :: multiset(LeaderRows(valid))[x] == if IsLeaderLap(x) then multiset(valid)[x] else 0
    ensures (forall i :: 0 <= i < |valid| ==> !IsLeaderLap(valid[i])) ==>
      forall x :: multiset(LeaderRows(valid))[x] == if x.driver == valid[0].driver then multiset(valid)[x] else 0
  {
    var rows, p1 := LeaderRows(valid), Filter(valid, IsLeaderLap);
    if exists i :: 0 <= i < |valid| && IsLeaderLap(valid[i]) {
      var i :| 0 <= i < |valid| && IsLeaderLap(valid[i]);
      assert valid[i] in p1;
      assert multiset(rows) == multiset(p1);
      FilterCount(valid, IsLeaderLap);
      forall x: LapRecord ensures multiset(rows)[x] == if IsLeaderLap(x) then multiset(valid)[x] else 0 {
        assert multiset(rows)[x] == multiset(p1)[x];
      }
    } else {
      var mine := Filter(valid, DrivenBy(valid[0].driver));
      assert multiset(rows) == multiset(mine);
      FilterCount(valid, DrivenBy(valid[0].driver));
      forall x: LapRecord ensures multiset(rows)[x] == if x.driver == valid[0].driver then multiset(valid)[x] else 0 {
        assert multiset(rows)[x] == multiset(mine)[x];
      }
    }
  }

  /** The timeline once there is telemetry and at least one timed lap: the
      leader's laps in lap order, chained, the last one ending at the latest
      telemetry sample. */
  function LeaderTimeline(valid: seq<LapRecord>, data: seq<Binding<string, Trace>>): (tl: seq<LapEntry>)
    requires |valid| > 0 && forall i :: 0 <= i < |valid| ==> HasStart(valid[i])
    requires |data| > 0 && forall i :: 0 <= i < |data| ==> |data[i].value.ts| > 0
    ensures tl == Chain(StartsOf(LeaderRows(valid)), LapsOf(LeaderRows(valid)), LatestTimestamp(data))
    ensures |tl| > 0 && Contiguous(tl)
    ensures Last(tl).end == LatestTimestamp(data)
    ensures forall i, j :: 0 <= i < j < |tl| ==> tl[i].lap <= tl[j].lap
  {
    var leader := LeaderRows(valid);
    var tl := Chain(StartsOf(leader), LapsOf(leader), LatestTimestamp(data));
    assert forall i :: 0 <= i < |leader| ==> LapNumberOf(leader[i]) == tl[i].lap;
    tl
  }

  /** When the leader's laps start in lap order and the last one starts no
      later than the latest telemetry sample, the timeline is well formed, so
      the lookup results below apply to it. */
  lemma LeaderTimelineWellFormed(valid: seq<LapRecord>, data: seq<Binding<string, Trace>>)
    requires |valid| > 0 && forall i :: 0 <= i < |valid| ==> HasStart(valid[i])
    requires |data| > 0 && forall i :: 0 <= i < |data| ==> |data[i].value.ts| > 0
    requires NonDecreasing(StartsOf(LeaderRows(valid)))
    requires Last(StartsOf(LeaderRows(valid))) <= LatestTimestamp(data)
    ensures WellFormed(LeaderTimeline(valid, data))
  {
    var rows := LeaderRows(valid);
    ChainWellFormed(StartsOf(rows), LapsOf(rows), LatestTimestamp(data));
  }

  /** Starts in order, laps in order and a final end no earlier than the last
      start chain into a well-formed timeline. */
  lemma ChainWellFormed(starts: seq<real>, laps: seq<int>, finalEnd: real)
    requires |laps| == |starts| > 0
    requires NonDecreasing(starts) && Last(starts) <= finalEnd
    requires forall i, j :: 0 <= i < j < |laps| ==> laps[i] <= laps[j]
    ensures WellFormed(Chain(starts, laps, finalEnd))
  {
    assert Last(Chain(starts, laps, finalEnd)).start == Last(starts);
  }

  /** `build_lap_timeline`. The source fails (an index or empty-`max` error)
      when no lap has a start time or there is no telemetry: `None`. */
  function BuildLapTimeline(laps: seq<LapRecord>, data: seq<Binding<string, Trace>>): (r: Option<seq<LapEntry>>)
    requires forall i :: 0 <= i < |data| ==> |data[i].value.ts| > 0
    ensures r.Some? <==> |data| > 0 && exists i :: 0 <= i < |laps| && laps[i].start.Some?
    ensures r.Some? ==> |r.value| > 0 && Contiguous(r.value)
    ensures r.Some? ==> Last(r.value).end == LatestTimestamp(data)
    ensures r.Some? ==> forall i, j :: 0 <= i < j < |r.value| ==> r.value[i].lap <= r.value[j].lap
    ensures r.Some? ==> |Filter(laps, HasStart)| > 0 && r.value == LeaderTimeline(Filter(laps, HasStart), data)
  {
    var valid := Filter(laps, HasStart);
    assert forall i :: 0 <= i < |laps| ==> (laps[i] in valid <==> HasStart(laps[i]));
    if |data| == 0 || |valid| == 0 then None
    else
      assert valid[0] in laps;
      assert forall i :: 0 <= i < |valid| ==> valid[i] in valid;
      Some(LeaderTimeline(valid, data))
  }

  /** `start <= t < end`. */
  predicate Covers(e: LapEntry, t: real) {
    e.start <= t < e.end
  }

  /** Index of the first entry covering `t`, or `|tl|`: a linear scan. */
  function FirstCovering(tl: seq<LapEntry>, t: real): (i: nat)
    ensures i <= |tl|
    ensures i < |tl| ==> Covers(tl[i], t)
    ensures forall j :: 0 <= j < i ==> !Covers(tl[j], t)
  {
    if |tl| == 0 then 0
    else if Covers(tl[0], t) then 0
    else 1 + FirstCovering(tl[1..], t)
  }

  /** `lap_for_time`: replay time is moved back to session time by adding
      `globalStart`; the lap of the first interval holding it, else the last
      entry's lap. */
  function LapForTime(tl: seq<LapEntry>, globalStart: real, t: real): int
    requires |tl| > 0
  {
    var i := FirstCovering(tl, t + globalStart);
    if i < |tl| then tl[i].lap else Last(tl).lap
  }

  /** The lap shown is that of the first interval covering the session time,
      and the final lap when no interval covers it. */
  lemma LapForTimeFirstCovering(tl: seq<LapEntry>, globalStart: real, t: real)
    requires |tl| > 0
    ensures forall i ::
      (0 <= i < |tl| && Covers(tl[i], t + globalStart) && forall j :: 0 <= j < i ==> !Covers(tl[j], t + globalStart))
      ==> LapForTime(tl, globalStart, t) == tl[i].lap
    ensures (forall i :: 0 <= i < |tl| ==> !Covers(tl[i], t + globalStart)) ==>
      LapForTime(tl, globalStart, t) == Last(tl).lap
  {
    var k := FirstCovering(tl, t + globalStart);
    forall i | 0 <= i < |tl| && Covers(tl[i], t + globalStart) && forall j :: 0 <= j < i ==> !Covers(tl[j], t + globalStart)
      ensures LapForTime(tl, globalStart, t) == tl[i].lap
    {
      FirstCoveringCharacterised(tl, t + globalStart, i);
    }
  }

  lemma FirstCoveringCharacterised(tl: seq<LapEntry>, st: real, i: nat)
    requires i < |tl| && Covers(tl[i], st)
    requires forall j :: 0 <= j < i ==> !Covers(tl[j], st)
    ensures FirstCovering(tl, st) == i
  {
  }

  /** A timeline the leader's data can produce: contiguous, starts in order,
      lap numbers in order, and the last lap ending no earlier than it starts. */
  predicate WellFormed(tl: seq<LapEntry>) {
    && |tl| > 0
    && Contiguous(tl)
    && (forall i, j :: 0 <= i < j < |tl| ==> tl[i].start <= tl[j].start)
    && (forall i, j :: 0 <= i < j < |tl| ==> tl[i].lap <= tl[j].lap)
    && Last(tl).start <= Last(tl).end
  }

  /** Before the first lap starts the lookup does not clamp to the first lap:
      it falls through to the last one. */
  lemma BeforeFirstStartGivesLastLap(tl: seq<LapEntry>, globalStart: real, t: real)
    requires |tl| > 0
    requires forall i, j :: 0 <= i < j < |tl| ==> tl[i].start <= tl[j].start
    requires t + globalStart < tl[0].start
    ensures LapForTime(tl, globalStart, t) == Last(tl).lap
  {
    assert forall i :: 0 <= i < |tl| ==> tl[0].start <= tl[i].start;
  }

  lemma EndsBounded(tl: seq<LapEntry>)
    requires WellFormed(tl)
    ensures forall i :: 0 <= i < |tl| ==> tl[i].start <= tl[i].end <= Last(tl).end
  {
    forall i | 0 <= i < |tl| ensures tl[i].start <= tl[i].end <= Last(tl).end {
      if i < |tl| - 1 {
        assert tl[i].end == tl[i + 1].start;
        assert tl[i + 1].start <= Last(tl).start;
      }
    }
  }

  /** From the end of the timeline on, the lookup clamps to the final lap. */
  lemma ClampsAfterEnd(tl: seq<LapEntry>, globalStart: real, t: real)
    requires WellFormed(tl)
    requires t + globalStart >= Last(tl).end
    ensures LapForTime(tl, globalStart, t) == Last(tl).lap
  {
    EndsBounded(tl);
  }

  /** Inside [first start, last end) some interval covers every time. */
  lemma {:induction false} CoveredInside(tl: seq<LapEntry>, st: real)
    requires WellFormed(tl)
    requires tl[0].start <= st < Last(tl).end
    ensures FirstCovering(tl, st) < |tl|
  {
    EndsBounded(tl);
    // the last entry starting at or before st covers it
    var k := 0;
    while k + 1 < |tl| && tl[k + 1].start <= st
      invariant 0 <= k < |tl|
      invariant tl[k].start <= st
    {
      k := k + 1;
    }
    assert Covers(tl[k], st) by {
      if k + 1 < |tl| {
        assert tl[k].end == tl[k + 1].start;
      }
    }
  }

  /** From the first lap's start on, the lap shown never goes backwards. */
  lemma LapForTimeMonotone(tl: seq<LapEntry>, globalStart: real, t1: real, t2: real)
    requires WellFormed(tl)
    requires tl[0].start <= t1 + globalStart
    requires t1 <= t2
    ensures LapForTime(tl, globalStart, t1) <= LapForTime(tl, globalStart, t2)
  {
    var s1, s2 := t1 + globalStart, t2 + globalStart;
    if s2 >= Last(tl).end {
      ClampsAfterEnd(tl, globalStart, t2);
      LapAtMostLast(tl, globalStart, t1);
    } else {
      CoveredInside(tl, s1);
      CoveredInside(tl, s2);
      var i, j := FirstCovering(tl, s1), FirstCovering(tl, s2);
      CoveringInOrder(tl, i, j, s1, s2);
      assert LapForTime(tl, globalStart, t1) == tl[i].lap;
      assert LapForTime(tl, globalStart, t2) == tl[j].lap;
    }
  }

  /** No lookup shows a lap beyond the final one. */
  lemma LapAtMostLast(tl: seq<LapEntry>, globalStart: real, t: real)
    requires WellFormed(tl)
    ensures LapForTime(tl, globalStart, t) <= Last(tl).lap
  {
    var i := FirstCovering(tl, t + globalStart);
    if i < |tl| - 1 {
      assert tl[i].lap <= tl[|tl| - 1].lap;
    }
  }

  /** Every interval ends no later than any later interval starts. */
  lemma EndsBeforeLaterStarts(tl: seq<LapEntry>)
    requires WellFormed(tl)
    ensures forall a, b :: 0 <= a < b < |tl| ==> tl[a].end <= tl[b].start
  {
    forall a, b | 0 <= a < b < |tl| ensures tl[a].end <= tl[b].start {
      assert tl[a].end == tl[a + 1].start;
    }
  }

  /** Intervals covering later times come no earlier in the timeline. */
  lemma CoveringInOrder(tl: seq<LapEntry>, i: nat, j: nat, s1: real, s2: real)
    requires WellFormed(tl)
    requires i < |tl| && j < |tl|
    requires Covers(tl[i], s1) && Covers(tl[j], s2) && s1 <= s2
    ensures i <= j
  {
    EndsBeforeLaterStarts(tl);
  }
}
