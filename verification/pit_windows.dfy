/** Pit windows: for every pit stop, the stretch of replay time during which
    the driver is shown as pitting. A stop opens at the pit-in time of its lap
    and closes at the pit-out time recorded on the driver's next lap, or a
    fixed 25 seconds later when that time is missing or not after the start. */
module PitWindows {
  import opened Options
  import opened Seqs
  import opened Laps

  datatype Window = Window(start: real, end: real)

  /** How long a stop is assumed to last when no pit-out time closes it. */
  const FallbackPitDuration: real := 25.0

  /** Session seconds on the replay clock. While the session start is unset
      (or zero) nothing is subtracted. */
  function ToReplay(t: real, globalStart: Option<real>): real {
    t - globalStart.GetOr(0.0)
  }

  predicate IsStop(r: LapRecord, driver: string) {
    r.driver == driver && r.pitIn.Some?
  }

  /** The driver's pit-stop rows, in lap-table order. */
  function StopsOf(laps: seq<LapRecord>, driver: string): (r: seq<LapRecord>)
    ensures |r| <= |laps|
    ensures forall i :: 0 <= i < |r| ==> IsStop(r[i], driver) && r[i] in laps
    ensures forall i :: 0 <= i < |laps| && IsStop(laps[i], driver) ==> laps[i] in r
  {
    if |laps| == 0 then []
    else
      var rest := StopsOf(laps[1..], driver);
      assert forall i :: 1 <= i < |laps| ==> laps[i] == laps[1..][i - 1];
      if IsStop(laps[0], driver) then [laps[0]] + rest else rest
  }

  /** Picks the pit-stop rows of `driver`. */
  function StopFor(driver: string): LapRecord -> bool {
    (r: LapRecord) => IsStop(r, driver)
  }

  /** The stops are the lap table filtered down to the driver's pit-in rows. */
  lemma {:induction false} StopsOfIsFilter(laps: seq<LapRecord>, driver: string)
    ensures StopsOf(laps, driver) == Filter(laps, StopFor(driver))
  {
    if |laps| > 0 {
      StopsOfIsFilter(laps[1..], driver);
      assert Filter(laps, StopFor(driver)) ==
        if IsStop(laps[0], driver) then [laps[0]] + Filter(laps[1..], StopFor(driver)) else Filter(laps[1..], StopFor(driver));
    }
  }

  /** Each pit-in row of the driver is a stop exactly as often as the table
      holds it, and the stops sit in the table at increasing positions: the
      rows `pit_laps` iterates over, in their order. */
  lemma StopsInLapOrder(laps: seq<LapRecord>, driver: string)
    ensures forall x :: multiset(StopsOf(laps, driver))[x] == if IsStop(x, driver) then multiset(laps)[x] else 0
    ensures exists idx :: KeptPositions(StopsOf(laps, driver), laps, StopFor(driver), idx)
  {
    StopsOfIsFilter(laps, driver);
    FilterCount(laps, StopFor(driver));
    FilterKeepsOrder(laps, StopFor(driver));
  }

  /** Index of the first row of `driver` on lap `lap`, or `|laps|`. */
  function FirstLapRow(laps: seq<LapRecord>, driver: string, lap: int): (i: nat)
    ensures i <= |laps|
    ensures i < |laps| ==> laps[i].driver == driver && laps[i].lap == lap
    ensures forall j :: 0 <= j < i ==> !(laps[j].driver == driver && laps[j].lap == lap)
  {
    if |laps| == 0 then 0
    else if laps[0].driver == driver && laps[0].lap == lap then 0
    else 1 + FirstLapRow(laps[1..], driver, lap)
  }

  /** The end of a stop that `driver` began on lap `lap` at replay time
      `start`: the pit-out time of the first row of their next lap when that
      time exists and is after `start`, else `start` plus the fallback. */
  function PitEnd(laps: seq<LapRecord>, driver: string, lap: int, start: real, globalStart: Option<real>): (e: real)
    ensures start < e
  {
    var i := FirstLapRow(laps, driver, lap + 1);
    if i < |laps| && laps[i].pitOut.Some? && ToReplay(laps[i].pitOut.value, globalStart) > start
    then ToReplay(laps[i].pitOut.value, globalStart)
    else start + FallbackPitDuration
  }

  /** A stop closes either after the fallback duration or at a pit-out time
      recorded on the driver's next lap; with no row for that lap, always the
      fallback. */
  lemma PitEndSource(laps: seq<LapRecord>, driver: string, lap: int, start: real, globalStart: Option<real>)
    ensures var e := PitEnd(laps, driver, lap, start, globalStart);
      || e == start + FallbackPitDuration
      || exists i :: 0 <= i < |laps| && laps[i].driver == driver && laps[i].lap == lap + 1 &&
           laps[i].pitOut.Some? && e == ToReplay(laps[i].pitOut.value, globalStart)
    ensures (forall i :: 0 <= i < |laps| ==> !(laps[i].driver == driver && laps[i].lap == lap + 1)) ==>
      PitEnd(laps, driver, lap, start, globalStart) == start + FallbackPitDuration
  {
  }

  /** Only the first row of the next lap counts: a pit-out time after the
      start closes the stop there, anything else falls back. */
  lemma PitEndFromFirstRow(laps: seq<LapRecord>, driver: string, lap: int, start: real, globalStart: Option<real>, i: nat)
    requires i < |laps| && laps[i].driver == driver && laps[i].lap == lap + 1
    requires forall j :: 0 <= j < i ==> !(laps[j].driver == driver && laps[j].lap == lap + 1)
    ensures PitEnd(laps, driver, lap, start, globalStart) ==
      if laps[i].pitOut.Some? && ToReplay(laps[i].pitOut.value, globalStart) > start
      then ToReplay(laps[i].pitOut.value, globalStart) else start + FallbackPitDuration
  {
    FirstLapRowCharacterised(laps, driver, lap + 1, i);
  }

  lemma FirstLapRowCharacterised(laps: seq<LapRecord>, driver: string, lap: int, i: nat)
    requires i < |laps| && laps[i].driver == driver && laps[i].lap == lap
    requires forall j :: 0 <= j < i ==> !(laps[j].driver == driver && laps[j].lap == lap)
    ensures FirstLapRow(laps, driver, lap) == i
  {
  }

  /** The window of one pit-stop row. */
  function StopWindow(laps: seq<LapRecord>, stop: LapRecord, globalStart: Option<real>): (w: Window)
    requires stop.pitIn.Some?
    ensures w.start == ToReplay(stop.pitIn.value, globalStart) && w.start < w.end
    ensures w.end == PitEnd(laps, stop.driver, stop.lap, w.start, globalStart)
  {
    var start := ToReplay(stop.pitIn.value, globalStart);
    Window(start, PitEnd(laps, stop.driver, stop.lap, start, globalStart))
  }

  /** One window per pit stop of `driver`, in lap-table order. */
  function DriverPitWindows(laps: seq<LapRecord>, driver: string, globalStart: Option<real>): (ws: seq<Window>)
    ensures |ws| == |StopsOf(laps, driver)|
    ensures forall i :: 0 <= i < |ws| ==> ws[i] == StopWindow(laps, StopsOf(laps, driver)[i], globalStart)
    ensures forall i :: 0 <= i < |ws| ==> ws[i].start < ws[i].end
    ensures forall i :: 0 <= i < |ws| ==>
      exists j :: 0 <= j < |laps| && IsStop(laps[j], driver) && ws[i].start == ToReplay(laps[j].pitIn.value, globalStart)
  {
    var stops := StopsOf(laps, driver);
    var ws := seq(|stops|, i requires 0 <= i < |stops| => StopWindow(laps, stops[i], globalStart));
    forall i | 0 <= i < |ws|
      ensures exists j :: 0 <= j < |laps| && IsStop(laps[j], driver) && ws[i].start == ToReplay(laps[j].pitIn.value, globalStart)
    {
      var j :| 0 <= j < |laps| && laps[j] == stops[i];
    }
    ws
  }

  /** Window k belongs to the row of the lap table at position `idx[k]`; the
      positions increase and cover every pit-in row of the driver. */
  predicate WindowRows(laps: seq<LapRecord>, driver: string, ws: seq<Window>, globalStart: Option<real>, idx: seq<nat>) {
    |idx| == |ws|
    && (forall k :: 0 <= k < |idx| ==>
          idx[k] < |laps| && IsStop(laps[idx[k]], driver) && ws[k] == StopWindow(laps, laps[idx[k]], globalStart))
    && (forall k, l :: 0 <= k < l < |idx| ==> idx[k] < idx[l])
    && (forall j :: 0 <= j < |laps| && IsStop(laps[j], driver) ==> j in idx)
  }

  /** The windows follow the driver's pit-in rows in table order, one each. */
  lemma WindowsInLapOrder(laps: seq<LapRecord>, driver: string, globalStart: Option<real>)
    ensures exists idx :: WindowRows(laps, driver, DriverPitWindows(laps, driver, globalStart), globalStart, idx)
  {
    StopsInLapOrder(laps, driver);
    var idx :| KeptPositions(StopsOf(laps, driver), laps, StopFor(driver), idx);
    assert forall j :: 0 <= j < |laps| && IsStop(laps[j], driver) ==> StopFor(driver)(laps[j]);
    assert WindowRows(laps, driver, DriverPitWindows(laps, driver, globalStart), globalStart, idx);
  }

  /** Every pit stop of the driver opens a window at its pit-in time. */
  lemma {:induction false} EveryStopHasWindow(laps: seq<LapRecord>, driver: string, globalStart: Option<real>, j: nat)
    requires j < |laps| && IsStop(laps[j], driver)
    ensures exists i :: (0 <= i < |DriverPitWindows(laps, driver, globalStart)| &&
      DriverPitWindows(laps, driver, globalStart)[i] == StopWindow(laps, laps[j], globalStart))
  {
    var stops := StopsOf(laps, driver);
    var i :| 0 <= i < |stops| && stops[i] == laps[j];
    assert DriverPitWindows(laps, driver, globalStart)[i] == StopWindow(laps, stops[i], globalStart);
  }

  /** `build_pit_windows` with one window per stop: every session driver gets
      an entry, possibly empty. */
  function BuildPitWindows(laps: seq<LapRecord>, drivers: seq<string>, globalStart: Option<real>): (m: map<string, seq<Window>>)
    ensures m.Keys == set d | d in drivers
    ensures forall d :: d in m ==> m[d] == DriverPitWindows(laps, d, globalStart)
  {
    map d | d in drivers :: DriverPitWindows(laps, d, globalStart)
  }

  /** `start <= t <= end` for some window: both ends count as pitting. */
  function IsPitting(ws: seq<Window>, t: real): (p: bool)
    ensures p <==> exists i :: 0 <= i < |ws| && ws[i].start <= t <= ws[i].end
  {
    if |ws| == 0 then false
    else if ws[0].start <= t <= ws[0].end then true
    else
      assert forall i :: 1 <= i < |ws| ==> ws[i] == ws[1..][i - 1];
      IsPitting(ws[1..], t)
  }

  /** A driver is pitting at both ends of each of their stops' windows. */
  lemma PittingAtStopEnds(laps: seq<LapRecord>, driver: string, globalStart: Option<real>, j: nat)
    requires j < |laps| && IsStop(laps[j], driver)
    ensures IsPitting(DriverPitWindows(laps, driver, globalStart), StopWindow(laps, laps[j], globalStart).start)
    ensures IsPitting(DriverPitWindows(laps, driver, globalStart), StopWindow(laps, laps[j], globalStart).end)
  {
    EveryStopHasWindow(laps, driver, globalStart, j);
  }

  /** Without a pit stop a driver is never shown as pitting. */
  lemma NoStopsNeverPitting(laps: seq<LapRecord>, driver: string, globalStart: Option<real>, t: real)
    requires forall i :: 0 <= i < |laps| ==> !IsStop(laps[i], driver)
    ensures !IsPitting(DriverPitWindows(laps, driver, globalStart), t)
  {
  }

  /** `build_pit_windows` as written. Two statements sit one indentation
      level too far out. The window is built after the loop over the driver's
      stops, from that loop's final values: one window per driver, from their
      last stop, or from the last stop seen for an earlier driver when they
      have none; with no stop seen yet the loop variables are unbound and the
      build raises. And the store into the result runs once, after the loop
      over drivers: only the last driver gets an entry, and an empty driver
      list raises too. Raising is `None`. */
  function PitWindowsAsWritten(laps: seq<LapRecord>, drivers: seq<string>, globalStart: Option<real>): (r: Option<map<string, seq<Window>>>)
    ensures r.None? <==> |drivers| == 0 || |StopsOf(laps, drivers[0])| == 0
    ensures r.Some? ==> r.value.Keys == {Last(drivers)} && |r.value[Last(drivers)]| == 1
  {
    if |drivers| == 0 then None
    else
      match LastWindowFrom(laps, drivers, globalStart, None)
      case None => None
      case Some(w) => Some(map[Last(drivers) := [w]])
  }

  /** The window the driver loop leaves behind when `carried` is the last stop
      seen before `drivers[0]`. */
  function LastWindowFrom(laps: seq<LapRecord>, drivers: seq<string>, globalStart: Option<real>,
                          carried: Option<LapRecord>): (r: Option<Window>)
    requires |drivers| > 0
    requires carried.Some? ==> carried.value.pitIn.Some?
    ensures r.None? <==> carried.None? && |StopsOf(laps, drivers[0])| == 0
    ensures r.Some? ==> r.value.start < r.value.end
    decreases |drivers|
  {
    var d := drivers[0];
    var stops := StopsOf(laps, d);
    var last := if |stops| > 0 then Some(Last(stops)) else carried;
    match last
    case None => None
    case Some(row) =>
      var start := ToReplay(row.pitIn.value, globalStart);
      var w := Window(start, PitEnd(laps, d, row.lap, start, globalStart));
      if |drivers| == 1 then Some(w) else LastWindowFrom(laps, drivers[1..], globalStart, last)
  }

  /** Once a stop has been seen, the loop leaves behind the window of the
      last driver's last stop when that driver has one. */
  lemma {:induction false} LastWindowOfLastDriver(laps: seq<LapRecord>, drivers: seq<string>, globalStart: Option<real>,
                                                  carried: Option<LapRecord>)
    requires |drivers| > 0 && |StopsOf(laps, Last(drivers))| > 0
    requires carried.Some? ==> carried.value.pitIn.Some?
    requires carried.Some? || |StopsOf(laps, drivers[0])| > 0
    ensures LastWindowFrom(laps, drivers, globalStart, carried) ==
      Some(StopWindow(laps, Last(StopsOf(laps, Last(drivers))), globalStart))
    decreases |drivers|
  {
    var stops := StopsOf(laps, drivers[0]);
    var last := if |stops| > 0 then Some(Last(stops)) else carried;
    assert last.Some?;
    if |drivers| > 1 {
      assert Last(drivers[1..]) == Last(drivers);
      LastWindowOfLastDriver(laps, drivers[1..], globalStart, last);
    } else {
      assert Last(stops) in stops;
    }
  }

  /** When the first and the last driver both stop, the as-written build
      holds one entry, for the last driver: the last of the windows the
      per-stop build gives them. */
  lemma AsWrittenKeepsLastWindow(laps: seq<LapRecord>, drivers: seq<string>, globalStart: Option<real>)
    requires |drivers| > 0 && |StopsOf(laps, drivers[0])| > 0 && |StopsOf(laps, Last(drivers))| > 0
    ensures |DriverPitWindows(laps, Last(drivers), globalStart)| > 0
    ensures PitWindowsAsWritten(laps, drivers, globalStart) ==
      Some(map[Last(drivers) := [Last(DriverPitWindows(laps, Last(drivers), globalStart))]])
  {
    var w := LastOwnWindow(laps, Last(drivers), globalStart);
    LastWindowOfLastDriver(laps, drivers, globalStart, None);
    assert LastWindowFrom(laps, drivers, globalStart, None) == Some(w);
  }

  /** The last per-stop window of a driver with stops is that of their last stop. */
  lemma LastOwnWindow(laps: seq<LapRecord>, d: string, globalStart: Option<real>) returns (w: Window)
    requires |StopsOf(laps, d)| > 0
    ensures |DriverPitWindows(laps, d, globalStart)| > 0
    ensures w == StopWindow(laps, Last(StopsOf(laps, d)), globalStart)
    ensures w == Last(DriverPitWindows(laps, d, globalStart))
  {
    var stops := StopsOf(laps, d);
    var ws := DriverPitWindows(laps, d, globalStart);
    w := ws[|ws| - 1];
    assert w == StopWindow(laps, stops[|stops| - 1], globalStart);
  }

  /** A driver with two stops gets one window as written, from the second
      stop. */
  lemma TwoStopsAsWritten()
    ensures PitWindowsAsWritten(TwoStops(), ["1"], None) == Some(map["1" := [Window(2000.0, 2025.0)]])
  {
    var laps := TwoStops();
    assert StopsOf(laps, "1") == laps by { StopsOfTwoStops(); }
    assert FirstLapRow(laps, "1", 21) == 2 by {
      assert laps[1..][1..] == [];
    }
    assert PitEnd(laps, "1", 20, 2000.0, None) == 2025.0;
    assert LastWindowFrom(laps, ["1"], None, None) == Some(Window(2000.0, 2025.0));
  }

  /** The same driver gets one window per stop once the window is built
      inside the loop. */
  lemma TwoStopsCorrected()
    ensures BuildPitWindows(TwoStops(), ["1"], None)["1"] == [Window(1000.0, 1025.0), Window(2000.0, 2025.0)]
  {
    TwoStopsWindows();
    assert "1" in BuildPitWindows(TwoStops(), ["1"], None);
  }

  /** Each stop of `TwoStops` closes 25 seconds after it opens: the next lap
      has no row. */
  lemma TwoStopsWindows()
    ensures DriverPitWindows(TwoStops(), "1", None) == [Window(1000.0, 1025.0), Window(2000.0, 2025.0)]
  {
    var laps := TwoStops();
    StopsOfTwoStops();
    assert FirstLapRow(laps, "1", 11) == 2 by {
      assert laps[1..][1..] == [];
    }
    assert FirstLapRow(laps, "1", 21) == 2 by {
      assert laps[1..][1..] == [];
    }
    assert PitEnd(laps, "1", 10, 1000.0, None) == 1025.0;
    assert PitEnd(laps, "1", 20, 2000.0, None) == 2025.0;
    var ws := DriverPitWindows(laps, "1", None);
    assert ws[0] == StopWindow(laps, laps[0], None) == Window(1000.0, 1025.0);
    assert ws[1] == StopWindow(laps, laps[1], None) == Window(2000.0, 2025.0);
  }

  /** Driver "1" pitting at the end of laps 10 and 20. */
  function TwoStops(): seq<LapRecord> {
    [LapRecord("1", 10, None, None, None, Some(1000.0), None),
     LapRecord("1", 20, None, None, None, Some(2000.0), None)]
  }

  lemma StopsOfTwoStops()
    ensures StopsOf(TwoStops(), "1") == TwoStops()
  {
    var laps := TwoStops();
    assert laps[1..][1..] == [];
    assert StopsOf(laps[1..][1..], "1") == [];
  }

  /** A first driver without stops makes the as-written build fail, although
      every driver has a well-defined (possibly empty) list of windows. */
  lemma FirstDriverWithoutStopsFails()
    ensures var laps := [LapRecord("1", 10, None, None, None, Some(1000.0), None)];
      PitWindowsAsWritten(laps, ["2", "1"], None).None? &&
      BuildPitWindows(laps, ["2", "1"], None)["2"] == [] &&
      |BuildPitWindows(laps, ["2", "1"], None)["1"]| == 1
  {
    var laps := [LapRecord("1", 10, None, None, None, Some(1000.0), None)];
    assert StopsOf(laps, "2") == [];
    assert StopsOf(laps, "1") == laps;
  }

  /** Only driver "1" stops, yet as written the result holds driver "2"
      alone, with "1"'s stop; built per driver, "1" keeps their window and "2"
      has none. */
  lemma StaleStopInherited()
    ensures var laps := [LapRecord("1", 10, None, None, None, Some(1000.0), None)];
      PitWindowsAsWritten(laps, ["1", "2"], None) == Some(map["2" := [Window(1000.0, 1025.0)]]) &&
      BuildPitWindows(laps, ["1", "2"], None)["1"] == [Window(1000.0, 1025.0)] &&
      BuildPitWindows(laps, ["1", "2"], None)["2"] == []
  {
    var laps := [LapRecord("1", 10, None, None, None, Some(1000.0), None)];
    assert StopsOf(laps, "2") == [];
    assert StopsOf(laps, "1") == laps;
    assert FirstLapRow(laps, "1", 11) == 1;
    assert FirstLapRow(laps, "2", 11) == 1;
    assert LastWindowFrom(laps, ["2"], None, Some(laps[0])) == Some(Window(1000.0, 1025.0));
  }
}
