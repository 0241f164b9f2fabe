/** The frame sampler: traces are shifted so the earliest sample of the
    session is replay time 0, then a uniform grid 0, dt, 2dt, ... is walked and
    every driver is placed on each tick. */
module Frames {
  import opened Options
  import opened Seqs
  import opened OrderedMaps
  import opened Colours
  import opened Telemetry
  import opened LapTimeline

  datatype DriverFrame = DriverFrame(x: real, y: real, lap: int, abbreviation: string, colour: Rgb, active: bool)

  datatype Frame = Frame(time: real, drivers: seq<Binding<string, DriverFrame>>)

  /** Earliest first sample over all drivers (`global_start`). */
  function GlobalStart(data: seq<Binding<string, Trace>>): (g: real)
    requires |data| > 0 && forall i :: 0 <= i < |data| ==> |data[i].value.ts| > 0
    ensures forall i :: 0 <= i < |data| ==> g <= data[i].value.ts[0]
    ensures exists i :: 0 <= i < |data| && g == data[i].value.ts[0]
  {
    if |data| == 1 then data[0].value.ts[0]
    else
      var g := GlobalStart(data[1..]);
      assert forall i :: 1 <= i < |data| ==> data[i] == data[1..][i - 1];
      if data[0].value.ts[0] < g then data[0].value.ts[0] else g
  }

  /** Latest last sample over all drivers (`global_end`). */
  function GlobalEnd(data: seq<Binding<string, Trace>>): (g: real)
    requires |data| > 0 && forall i :: 0 <= i < |data| ==> |data[i].value.ts| > 0
    ensures forall i :: 0 <= i < |data| ==> Last(data[i].value.ts) <= g
    ensures exists i :: 0 <= i < |data| && g == Last(data[i].value.ts)
  {
    if |data| == 1 then Last(data[0].value.ts)
    else
      var g := GlobalEnd(data[1..]);
      assert forall i :: 1 <= i < |data| ==> data[i] == data[1..][i - 1];
      if Last(data[0].value.ts) > g then Last(data[0].value.ts) else g
  }

  /** The trace with every timestamp moved back by `g`. */
  function Shift(tr: Trace, g: real): (r: Trace)
    ensures r.xs == tr.xs && r.ys == tr.ys && r.laps == tr.laps
    ensures |r.ts| == |tr.ts| && forall i :: 0 <= i < |tr.ts| ==> r.ts[i] == tr.ts[i] - g
    ensures ValidTrace(tr) ==> ValidTrace(r)
  {
    tr.(ts := seq(|tr.ts|, i requires 0 <= i < |tr.ts| => tr.ts[i] - g))
  }

  /** Every driver's trace shifted so replay time starts at 0. */
  function Normalise(data: seq<Binding<string, Trace>>): (r: seq<Binding<string, Trace>>)
    requires |data| > 0 && AllValid(data)
    ensures |r| == |data| && AllValid(r)
    ensures forall i :: 0 <= i < |data| ==> r[i].key == data[i].key
    ensures forall i :: 0 <= i < |data| ==> r[i].value == Shift(data[i].value, GlobalStart(data))
    ensures forall i :: 0 <= i < |r| ==> 0.0 <= r[i].value.ts[0]
    ensures exists i :: 0 <= i < |r| && r[i].value.ts[0] == 0.0
  {
    var g := GlobalStart(data);
    seq(|data|, i requires 0 <= i < |data| => Binding(data[i].key, Shift(data[i].value, g)))
  }

  /** One driver at replay time `t`: interpolated and active while the trace
      lasts, frozen at the last sample afterwards. */
  function PlaceDriver(tr: Trace, lap: int, t: real): (f: DriverFrame)
    requires ValidTrace(tr)
    ensures f.lap == lap && f.abbreviation == tr.abbreviation && f.colour == tr.colour
    ensures f.active <==> t <= Last(tr.ts)
    ensures !f.active ==> f.x == Last(tr.xs) && f.y == Last(tr.ys)
    ensures t <= tr.ts[0] ==> f.x == tr.xs[0] && f.y == tr.ys[0]
    ensures forall j :: 0 <= j < |tr.ts| - 1 && tr.ts[j] <= t <= tr.ts[j + 1] ==>
      f.x == Lerp(t, tr.ts[j], tr.ts[j + 1], tr.xs[j], tr.xs[j + 1]) &&
      f.y == Lerp(t, tr.ts[j], tr.ts[j + 1], tr.ys[j], tr.ys[j + 1])
  {
    if t <= Last(tr.ts) then
      DriverFrame(Interp(t, tr.ts, tr.xs), Interp(t, tr.ts, tr.ys), lap, tr.abbreviation, tr.colour, true)
    else
      DriverFrame(Last(tr.xs), Last(tr.ys), lap, tr.abbreviation, tr.colour, false)
  }

  /** The frame at replay time `t`; the lap shown for every driver is the
      leader-timeline lap at `t`. */
  function FrameAt(data: seq<Binding<string, Trace>>, tl: seq<LapEntry>, globalStart: real, t: real): (f: Frame)
    requires AllValid(data) && |tl| > 0
    ensures f.time == t && |f.drivers| == |data|
    ensures forall i :: 0 <= i < |data| ==> f.drivers[i].key == data[i].key
    ensures forall i :: 0 <= i < |data| ==> f.drivers[i].value.lap == LapForTime(tl, globalStart, t)
    ensures forall i :: 0 <= i < |data| ==> (f.drivers[i].value.active <==> t <= Last(data[i].value.ts))
    ensures forall i :: 0 <= i < |data| ==> f.drivers[i].value == PlaceDriver(data[i].value, LapForTime(tl, globalStart, t), t)
  {
    var lap := LapForTime(tl, globalStart, t);
    Frame(t, seq(|data|, i requires 0 <= i < |data| => Binding(data[i].key, PlaceDriver(data[i].value, lap, t))))
  }

  /** Number of ticks k >= 0 with k * dt <= duration (see `FrameCountBounds`). */
  function FrameCount(duration: real, dt: real): (n: nat)
    requires dt > 0.0
    ensures duration < 0.0 <==> n == 0
  {
    if duration < 0.0 then 0 else (duration / dt).Floor + 1
  }

  /** The last tick is at or before `duration`; the next one would be after. */
  lemma FrameCountBounds(duration: real, dt: real)
    requires dt > 0.0 && duration >= 0.0
    ensures var n := FrameCount(duration, dt);
      n > 0 && (n - 1) as real * dt <= duration < n as real * dt
  {
    var n := FrameCount(duration, dt);
    FloorBracket(duration, dt);
    DivTimes(duration, dt);
    ScaledBracket((n - 1) as real, duration / dt, n as real, duration, dt);
  }

  lemma ScaledBracket(lo: real, x: real, hi: real, duration: real, dt: real)
    requires dt > 0.0 && lo <= x < hi && x * dt == duration
    ensures lo * dt <= duration < hi * dt
  {
    MulBetween(lo, x, hi, dt);
  }

  lemma FloorBracket(duration: real, dt: real)
    requires dt > 0.0 && duration >= 0.0
    ensures var n := FrameCount(duration, dt);
      n > 0 && (n - 1) as real <= duration / dt < n as real
  {
    var x := duration / dt;
    assert x.Floor as real <= x < x.Floor as real + 1.0;
  }

  lemma MulBetween(lo: real, x: real, hi: real, c: real)
    requires lo <= x < hi && c > 0.0
    ensures lo * c <= x * c < hi * c
  {
    MulMonotone(lo, x, c);
    MulStrict(x, hi, c);
  }

  lemma DivTimes(a: real, c: real)
    requires c > 0.0
    ensures a / c * c == a
  {
  }

  lemma MulStrict(a: real, b: real, c: real)
    requires a < b && c > 0.0
    ensures a * c < b * c
  {
    assert (b - a) * c == b * c - a * c;
    assert (b - a) * c > 0.0;
  }

  lemma MulMonotone(a: real, b: real, c: real)
    requires a <= b && c > 0.0
    ensures a * c <= b * c
  {
  }

  /** Frame k is the frame at replay time k * dt. */
  predicate SampledEvery(frames: seq<Frame>, data: seq<Binding<string, Trace>>, tl: seq<LapEntry>, globalStart: real, dt: real)
    requires AllValid(data) && |tl| > 0
  {
    forall k :: 0 <= k < |frames| ==> frames[k] == FrameAt(data, tl, globalStart, Tick(k, dt))
  }

  /** Replay time of tick `k`. */
  function Tick(k: nat, dt: real): real {
    k as real * dt
  }

  /** The sampling loop. Frame k is taken at time k * dt, and frames are made
      exactly while that time is at most `duration`. */
  method GenerateFrames(data: seq<Binding<string, Trace>>, tl: seq<LapEntry>, globalStart: real, dt: real, duration: real)
    returns (frames: seq<Frame>)
    requires AllValid(data) && |tl| > 0 && dt > 0.0
    ensures SampledEvery(frames, data, tl, globalStart, dt)
    ensures |frames| == FrameCount(duration, dt)
  {
    frames := [];
    var time := 0.0;
    while time <= duration
      invariant time == Tick(|frames|, dt)
      invariant SampledEvery(frames, data, tl, globalStart, dt)
      invariant |frames| <= FrameCount(duration, dt)
      invariant |frames| > 0 ==> Tick(|frames| - 1, dt) <= duration
      decreases FrameCount(duration, dt) - |frames|
    {
      TickCounted(|frames|, duration, dt);
      SampledExtend(frames, data, tl, globalStart, dt);
      NextTick(|frames|, dt);
      frames := frames + [FrameAt(data, tl, globalStart, time)];
      time := time + dt;
    }
    TicksCounted(|frames|, time, duration, dt);
  }

  /** A tick at or before `duration` is one of the counted ones. */
  lemma TickCounted(m: nat, duration: real, dt: real)
    requires dt > 0.0 && Tick(m, dt) <= duration
    ensures m < FrameCount(duration, dt)
  {
    var n := FrameCount(duration, dt);
    MulMonotone(0.0, m as real, dt);
    assert 0.0 * dt == 0.0;
    FrameCountBounds(duration, dt);
    assert m as real * dt < n as real * dt;
    MulCancel(m as real, n as real, dt);
  }

  lemma NextTick(m: nat, dt: real)
    ensures Tick(m, dt) + dt == Tick(m + 1, dt)
  {
  }

  /** Appending the frame of the next tick keeps the frames sampled. */
  lemma SampledExtend(frames: seq<Frame>, data: seq<Binding<string, Trace>>, tl: seq<LapEntry>, globalStart: real, dt: real)
    requires AllValid(data) && |tl| > 0
    requires SampledEvery(frames, data, tl, globalStart, dt)
    ensures SampledEvery(frames + [FrameAt(data, tl, globalStart, Tick(|frames|, dt))], data, tl, globalStart, dt)
  {
    var n := |frames|;
    var next := frames + [FrameAt(data, tl, globalStart, Tick(n, dt))];
    forall k | 0 <= k < |next| ensures next[k] == FrameAt(data, tl, globalStart, Tick(k, dt)) {
      if k < n {
        assert next[k] == frames[k];
      }
    }
  }

  /** Every sampled frame lies within the session, and the tick after the
      last one would lie beyond it. */
  lemma TicksWithinSession(frames: seq<Frame>, dt: real, duration: real)
    requires dt > 0.0 && duration >= 0.0
    requires forall k :: 0 <= k < |frames| ==> frames[k].time == k as real * dt
    requires |frames| == FrameCount(duration, dt)
    ensures forall k :: 0 <= k < |frames| ==> 0.0 <= frames[k].time <= duration
    ensures duration < |frames| as real * dt
  {
    FrameCountBounds(duration, dt);
    var n := |frames|;
    forall k | 0 <= k < n ensures 0.0 <= frames[k].time <= duration {
      MulMonotone(k as real, (n - 1) as real, dt);
      MulMonotone(0.0, k as real, dt);
    }
  }

  lemma TicksCounted(n: nat, time: real, duration: real, dt: real)
    requires dt > 0.0 && time == Tick(n, dt)
    requires duration < time && (n > 0 ==> Tick(n - 1, dt) <= duration)
    ensures n == FrameCount(duration, dt)
  {
    if duration >= 0.0 {
      FrameCountBounds(duration, dt);
      CountUnique(n, FrameCount(duration, dt), duration, dt);
    } else if n > 0 {
      MulMonotone(0.0, (n - 1) as real, dt);
    }
  }

  /** At most one tick count n has (n - 1) * dt <= duration < n * dt. */
  lemma CountUnique(a: nat, b: nat, duration: real, dt: real)
    requires dt > 0.0
    requires a > 0 ==> (a - 1) as real * dt <= duration
    requires b > 0 ==> (b - 1) as real * dt <= duration
    requires duration < a as real * dt && duration < b as real * dt
    ensures a == b
  {
    CountBelow(a, b, duration, dt);
    CountBelow(b, a, duration, dt);
  }

  lemma CountBelow(a: nat, b: nat, duration: real, dt: real)
    requires dt > 0.0
    requires b > 0 ==> (b - 1) as real * dt <= duration
    requires duration < a as real * dt
    ensures b <= a
  {
    if b > 0 {
      MulCancel((b - 1) as real, a as real, dt);
    }
  }

  lemma MulCancel(x: real, y: real, c: real)
    requires c > 0.0 && x * c < y * c
    ensures x < y
  {
    if y <= x {
      MulMonotone(y, x, c);
    }
  }

  /** Session length (`race_duration`): latest last sample minus earliest
      first sample; never negative since every trace is sorted. */
  function SessionLength(data: seq<Binding<string, Trace>>): (d: real)
    requires |data| > 0 && AllValid(data)
    ensures d == GlobalEnd(data) - GlobalStart(data)
    ensures 0.0 <= d
  {
    var tr := data[0].value;
    assert GlobalStart(data) <= tr.ts[0] <= Last(tr.ts) <= GlobalEnd(data);
    GlobalEnd(data) - GlobalStart(data)
  }

  /** The lap timeline ends, in session time, where the frames end: at the
      latest telemetry sample, which for sorted traces is the latest last
      sample. */
  lemma {:induction false} LatestTimestampIsGlobalEnd(data: seq<Binding<string, Trace>>)
    requires |data| > 0 && AllValid(data)
    ensures LatestTimestamp(data) == GlobalEnd(data)
    ensures LatestTimestamp(data) == GlobalStart(data) + SessionLength(data)
  {
    var tr := data[0].value;
    assert ValidTrace(tr);
    IncreasingIsNonDecreasing(tr.ts);
    MaxOfNonDecreasing(tr.ts);
    if |data| > 1 {
      var rest := data[1..];
      assert forall i :: 0 <= i < |rest| ==> rest[i] == data[i + 1];
      LatestTimestampIsGlobalEnd(rest);
    }
  }

  /** An hour-long session sampled every tenth of a second has 36001 frames. */
  lemma HourAtTenthSecond()
    ensures FrameCount(3600.0, 0.1) == 36001
  {
    assert 3600.0 / 0.1 == 36000.0;
  }

  /** `align_timelines_and_generate_frames`: no traces give no frames;
      otherwise traces are shifted to start at replay time 0 and sampled from
      0 to the session's length (latest last sample minus earliest first). */
  method AlignTimelinesAndGenerateFrames(data: seq<Binding<string, Trace>>, tl: seq<LapEntry>, dt: real)
    returns (globalStart: Option<real>, aligned: seq<Binding<string, Trace>>, frames: seq<Frame>)
    requires AllValid(data) && (|data| > 0 ==> |tl| > 0) && dt > 0.0
    ensures |data| == 0 <==> |frames| == 0
    ensures |data| == 0 ==> globalStart.None? && aligned == data
    ensures |data| > 0 ==> globalStart == Some(GlobalStart(data)) && aligned == Normalise(data)
    ensures |data| > 0 ==> |frames| == FrameCount(SessionLength(data), dt)
    ensures |data| > 0 ==> SampledEvery(frames, aligned, tl, globalStart.value, dt)
  {
    if |data| == 0 {
      return None, data, [];
    }
    var g := GlobalStart(data);
    globalStart := Some(g);
    aligned := Normalise(data);
    frames := GenerateFrames(aligned, tl, g, dt, SessionLength(data));
  }
}
