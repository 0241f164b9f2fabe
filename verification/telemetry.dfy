/** Per-driver telemetry traces: loading them from the session (with the
    per-driver skip outcomes), and the two numeric lookups the replay uses on
    them: left bisection of the timestamp column and piecewise-linear
    interpolation of a position column. */
module Telemetry {
  import opened Options
  import opened Seqs
  import opened OrderedMaps
  import opened Colours

  /** One driver's telemetry, already rotated into track coordinates. */
  datatype Trace = Trace(
    abbreviation: string,
    team: string,
    colour: Rgb,
    ts: seq<real>,
    xs: seq<real>,
    ys: seq<real>,
    laps: seq<int>)

  /** Columns of one table: all the same length, at least one sample. */
  predicate WellShaped(tr: Trace) {
    |tr.ts| > 0 && |tr.xs| == |tr.ts| && |tr.ys| == |tr.ts| && |tr.laps| == |tr.ts|
  }

  /** The interpolation and bisection below need sorted timestamps. */
  predicate ValidTrace(tr: Trace) {
    WellShaped(tr) && Increasing(tr.ts)
  }

  predicate AllValid(data: seq<Binding<string, Trace>>) {
    forall i :: 0 <= i < |data| ==> ValidTrace(data[i].value)
  }

  /** The trace stored for driver `d`, if any; every stored trace is valid. */
  function TraceOf(data: seq<Binding<string, Trace>>, d: string): (r: Option<Trace>)
    requires AllValid(data)
    ensures r == Lookup(data, d)
    ensures r.Some? ==> ValidTrace(r.value)
  {
    var r := Lookup(data, d);
    assert r.Some? ==> ValidTrace(r.value) by {
      if r.Some? {
        var i :| 0 <= i < |data| && data[i] == Binding(d, r.value);
      }
    }
    r
  }

  /** What the session offers for one driver. `hasLaps` is false when the
      driver has no lap rows; `lapNumbers` is `None` when the telemetry table
      has no lap-number column; optional fields fall back to defaults. */
  datatype DriverInput = DriverInput(
    driver: string,
    abbreviation: string,
    teamColour: Option<string>,
    teamName: Option<string>,
    hasLaps: bool,
    ts: seq<real>,
    xs: seq<real>,
    ys: seq<real>,
    lapNumbers: Option<seq<int>>)

  predicate SameLength(d: DriverInput) {
    |d.xs| == |d.ts| && |d.ys| == |d.ts| && (d.lapNumbers.Some? ==> |d.lapNumbers.value| == |d.ts|)
  }

  /** The driver has laps, non-empty telemetry and a parsable team colour. */
  predicate Loads(d: DriverInput) {
    d.hasLaps && |d.ts| > 0 && HexToRgb(d.teamColour.GetOr(DefaultTeamColour)).Some?
  }

  /** The trace stored for a driver, or `None` when the driver is skipped: no
      laps, empty telemetry, or a team colour that does not parse (an exception
      caught per driver). */
  function LoadDriver(d: DriverInput): (r: Option<Trace>)
    requires SameLength(d)
    ensures r.Some? <==> Loads(d)
    ensures r.Some? ==> WellShaped(r.value) && r.value.ts == d.ts && r.value.xs == d.xs && r.value.ys == d.ys
    ensures r.Some? && d.lapNumbers.None? ==> forall i :: 0 <= i < |r.value.laps| ==> r.value.laps[i] == 1
    ensures r.Some? && d.teamName.None? ==> r.value.team == "Unknown"
  {
    if !d.hasLaps || |d.ts| == 0 then None
    else
      match HexToRgb(d.teamColour.GetOr(DefaultTeamColour))
      case None => None
      case Some(c) =>
        var laps := d.lapNumbers.GetOr(seq(|d.ts|, _ => 1));
        Some(Trace(d.abbreviation, d.teamName.GetOr("Unknown"), c, d.ts, d.xs, d.ys, laps))
  }

  /** `load_drivers` without the rotation: every loadable driver is stored
      under its number, in session order. */
  function LoadDrivers(inputs: seq<DriverInput>): (data: seq<Binding<string, Trace>>)
    requires forall i :: 0 <= i < |inputs| ==> SameLength(inputs[i])
    ensures DistinctKeys(data)
    ensures forall i :: 0 <= i < |data| ==> WellShaped(data[i].value)
  {
    if |inputs| == 0 then []
    else
      var init := inputs[..|inputs| - 1];
      var d := inputs[|inputs| - 1];
      var data := LoadDrivers(init);
      match LoadDriver(d)
      case None => data
      case Some(tr) =>
        Put(data, d.driver, tr)
  }

  /** An input of driver `d` that loads. */
  function LoadsFor(d: string): DriverInput -> bool {
    (x: DriverInput) => x.driver == d && Loads(x)
  }

  /** Reference reading of the loader for one driver: the trace from their
      last loadable input, if any. */
  function LastLoadable(inputs: seq<DriverInput>, d: string): (r: Option<Trace>)
    requires forall i :: 0 <= i < |inputs| ==> SameLength(inputs[i])
    ensures r.Some? <==> Any(inputs, LoadsFor(d))
  {
    if |inputs| == 0 then None
    else
      var n := |inputs| - 1;
      if LoadsFor(d)(inputs[n]) then LoadDriver(inputs[n])
      else LastLoadable(inputs[..n], d)
  }

  /** A driver is loaded exactly when one of their inputs is loadable, and the
      stored trace comes from their last loadable input. */
  lemma {:induction false} LoadDriversLastWins(inputs: seq<DriverInput>, d: string)
    requires forall i :: 0 <= i < |inputs| ==> SameLength(inputs[i])
    ensures Lookup(LoadDrivers(inputs), d) == LastLoadable(inputs, d)
  {
    if |inputs| > 0 {
      LoadDriversLastWins(inputs[..|inputs| - 1], d);
    }
  }

  /** `np.searchsorted(ts, t)` (side "left"): the first index whose timestamp is
      at least `t`, found by bisection. */
  function SearchLeft(ts: seq<real>, t: real): (i: nat)
    requires NonDecreasing(ts)
    ensures i <= |ts|
    ensures forall j :: 0 <= j < i ==> ts[j] < t
    ensures forall j :: i <= j < |ts| ==> t <= ts[j]
  {
    Bisect(ts, t, 0, |ts|)
  }

  function Bisect(ts: seq<real>, t: real, lo: nat, hi: nat): (i: nat)
    requires NonDecreasing(ts)
    requires lo <= hi <= |ts|
    requires forall j :: 0 <= j < lo ==> ts[j] < t
    requires forall j :: hi <= j < |ts| ==> t <= ts[j]
    ensures lo <= i <= hi
    ensures forall j :: 0 <= j < i ==> ts[j] < t
    ensures forall j :: i <= j < |ts| ==> t <= ts[j]
    decreases hi - lo
  {
    if lo == hi then lo
    else
      var mid := (lo + hi) / 2;
      if ts[mid] < t then Bisect(ts, t, mid + 1, hi) else Bisect(ts, t, lo, mid)
  }

  /** The index `j` with `ts[j] <= t < ts[j + 1]`, by a scan from `lo`. */
  function Bracket(ts: seq<real>, t: real, lo: nat): (j: nat)
    requires Increasing(ts)
    requires lo < |ts| && ts[lo] <= t < Last(ts)
    ensures lo <= j && j + 1 < |ts|
    ensures ts[j] <= t < ts[j + 1]
    decreases |ts| - lo
  {
    if t < ts[lo + 1] then lo else Bracket(ts, t, lo + 1)
  }

  /** The straight line through (t0, v0) and (t1, v1), read at `t`. */
  function Lerp(t: real, t0: real, t1: real, v0: real, v1: real): real
    requires t0 < t1
  {
    v0 + (t - t0) * (v1 - v0) / (t1 - t0)
  }

  /** `np.interp(t, ts, vs)`: the first sample before the trace, the last after
      it, and in between the value on the segment joining the samples around `t`. */
  function Interp(t: real, ts: seq<real>, vs: seq<real>): (v: real)
    requires |ts| > 0 && |vs| == |ts| && Increasing(ts)
    ensures t <= ts[0] ==> v == vs[0]
    ensures t >= Last(ts) ==> v == Last(vs)
    ensures forall j :: 0 <= j < |ts| - 1 && ts[j] <= t <= ts[j + 1] ==>
      v == Lerp(t, ts[j], ts[j + 1], vs[j], vs[j + 1])
  {
    if t <= ts[0] then
      OuterSegmentsEnds(ts, vs);
      vs[0]
    else if t >= Last(ts) then
      OuterSegmentsEnds(ts, vs);
      Last(vs)
    else
      var j := Bracket(ts, t, 0);
      var v := Lerp(t, ts[j], ts[j + 1], vs[j], vs[j + 1]);
      forall k | 0 <= k < |ts| - 1 && ts[k] <= t <= ts[k + 1]
        ensures v == Lerp(t, ts[k], ts[k + 1], vs[k], vs[k + 1])
      {
        if k != j {
          // the two segments meet at t, so both lines read the shared sample
          assert k + 1 == j && t == ts[j];
          LerpAtEnds(ts[k], ts[k + 1], vs[k], vs[k + 1]);
          LerpAtEnds(ts[j], ts[j + 1], vs[j], vs[j + 1]);
        }
      }
      v
  }

  lemma OuterSegmentsEnds(ts: seq<real>, vs: seq<real>)
    requires |ts| > 1 ==> |vs| == |ts| && ts[0] < ts[1] && ts[|ts| - 2] < ts[|ts| - 1]
    ensures |ts| > 1 ==> Lerp(ts[0], ts[0], ts[1], vs[0], vs[1]) == vs[0]
    ensures |ts| > 1 ==> Lerp(ts[|ts| - 1], ts[|ts| - 2], ts[|ts| - 1], vs[|ts| - 2], vs[|ts| - 1]) == vs[|ts| - 1]
  {
    if |ts| > 1 {
      LerpAtEnds(ts[0], ts[1], vs[0], vs[1]);
      LerpAtEnds(ts[|ts| - 2], ts[|ts| - 1], vs[|ts| - 2], vs[|ts| - 1]);
    }
  }

  lemma LerpAtEnds(t0: real, t1: real, v0: real, v1: real)
    requires t0 < t1
    ensures Lerp(t0, t0, t1, v0, v1) == v0
    ensures Lerp(t1, t0, t1, v0, v1) == v1
  {
    assert (t1 - t0) * (v1 - v0) / (t1 - t0) == v1 - v0;
  }

  /** On a segment the interpolated value lies between the segment's ends. */
  lemma LerpBetween(t: real, t0: real, t1: real, v0: real, v1: real)
    requires t0 <= t <= t1 && t0 < t1
    ensures v0 <= v1 ==> v0 <= Lerp(t, t0, t1, v0, v1) <= v1
    ensures v1 <= v0 ==> v1 <= Lerp(t, t0, t1, v0, v1) <= v0
  {
    var q := t1 - t0;
    var x := t - t0;
    var d := v1 - v0;
    assert Lerp(t, t0, t1, v0, v1) == v0 + x * d / q;
    assert q * d / q == d;
    assert 0.0 * d / q == 0.0;
    if v0 <= v1 {
      ScaleMonotone(0.0, x, d);
      ScaleMonotone(x, q, d);
      DivMonotone(0.0 * d, x * d, q);
      DivMonotone(x * d, q * d, q);
    } else {
      ScaleMonotone(0.0, x, -d);
      ScaleMonotone(x, q, -d);
      assert x * -d == -(x * d) && q * -d == -(q * d) && 0.0 * -d == 0.0;
      DivMonotone(q * d, x * d, q);
      DivMonotone(x * d, 0.0 * d, q);
    }
  }

  lemma DivMonotone(a: real, b: real, q: real)
    requires a <= b && q > 0.0
    ensures a / q <= b / q
  {
    assert b / q - a / q == (b - a) / q;
  }

  lemma ScaleMonotone(a: real, b: real, c: real)
    requires a <= b && c >= 0.0
    ensures a * c <= b * c
  {
    MulNonNegative(b - a, c);
    assert (b - a) * c == b * c - a * c;
  }

  lemma MulNonNegative(a: real, b: real)
    requires 0.0 <= a && 0.0 <= b
    ensures 0.0 <= a * b
  {
  }

  /** Interpolation reproduces every recorded sample. */
  lemma InterpAtSample(ts: seq<real>, vs: seq<real>, i: nat)
    requires |ts| > 0 && |vs| == |ts| && Increasing(ts) && i < |ts|
    ensures Interp(ts[i], ts, vs) == vs[i]
  {
    if 0 < i < |ts| - 1 {
      LerpAtEnds(ts[i], ts[i + 1], vs[i], vs[i + 1]);
    }
  }

  /** An interpolated position lies on the segment between the two raw
      samples that bracket the query time. */
  lemma InterpOnSegment(t: real, ts: seq<real>, vs: seq<real>, j: nat)
    requires |ts| > 0 && |vs| == |ts| && Increasing(ts)
    requires j + 1 < |ts| && ts[j] <= t <= ts[j + 1]
    ensures vs[j] <= vs[j + 1] ==> vs[j] <= Interp(t, ts, vs) <= vs[j + 1]
    ensures vs[j + 1] <= vs[j] ==> vs[j + 1] <= Interp(t, ts, vs) <= vs[j]
  {
    LerpBetween(t, ts[j], ts[j + 1], vs[j], vs[j + 1]);
  }
}
