# Race replay data model

A Dafny model of the data core of a Formula 1 race replay: the `RaceData`
class in `race_data.py`. It turns a timing session into the structures a
replay viewer draws from:

- the per-driver status table built from the results (DNF flag, grid slot);
- the tyre-compound and running-position maps (driver -> lap -> value);
- the per-driver telemetry traces, and the colour parser they use;
- the leader's lap timeline, and the lookup from replay time to lap;
- the replay frames, one every `frame_interval` seconds of replay time, with
  every driver's interpolated position;
- the per-driver position timeline;
- the pit-stop windows;
- the live leaderboard at any replay time.

Session tables are sequences of records. A missing (NaN) cell is an `Option`.
A Python `dict` is an insertion-ordered sequence of bindings (`OrderedMaps`),
because the leaderboard's tie order follows the status table's key order.
Times are exact reals. Where the source raises, the model returns `None`:
an unparsable team colour, a lap timeline with no timed lap or no telemetry,
and the pit-window build as written (see Findings). The frame generator's
traces and `global_start` are set only when there is telemetry; with none
the source returns early, and so does the model.

`align_timelines_and_generate_frames` shifts `driver_data` in place
(race_data.py:198-199). Everything that reads the traces after it, the
position timeline and the leaderboard, therefore takes the normalised traces.
`PositionTimeline.FinalEnd` adds the session start back to a normalised
sample, as race_data.py:282 does.

Modules, in pipeline order:

| module | file | models |
|---|---|---|
| `Results` | results.dfy | `load_results` |
| `Colours` | colours.dfy | `hex_to_rgb` |
| `Telemetry` | telemetry.dfy | `load_drivers` without the rotation, `np.searchsorted`, `np.interp` |
| `Laps` | laps.dfy | `build_compound_map`, `build_lap_position_map` |
| `LapTimeline` | lap_timeline.dfy | `build_lap_timeline`, `lap_for_time` |
| `Frames` | frames.dfy | `align_timelines_and_generate_frames` |
| `PositionTimeline` | position_timeline.dfy | `build_position_timeline` |
| `PitWindows` | pit_windows.dfy | `build_pit_windows`, both as written and corrected |
| `Leaderboard` | leaderboard.dfy | `get_leaderboard` |
| `Options`, `Seqs`, `OrderedMaps`, `Sorting` | options.dfy, seqs.dfy, ordered_maps.dfy, sorting.dfy | optional values, sequence helpers, ordered dicts, a stable sort |

The lap-position map is an input to the leaderboard. `__init__` never calls
`build_lap_position_map`, so in the program as written that map stays empty.
With an empty map, a driver on lap 2 or later shows the raw grid value
(`Leaderboard.UnmappedDriverShowsGrid`).

## Model

| member | source | states |
|---|---|---|
| Results.ClassifyRow | race_data.py:50-59 | The status text is kept. A row is a DNF exactly when its lower-cased status is not "finished" and contains no '+'. A missing grid column gives grid 20; otherwise the grid is the row's value. |
| Results.DnfIgnoresCase | race_data.py:52 | Whether a status counts as a DNF does not depend on its letter case. |
| Results.FinishedExamples | race_data.py:52 | "Finished", "FINISHED" and "+1 Lap" are finishes. |
| Results.DnfExamples | race_data.py:52-57 | "Retired" is a DNF, and so is "Finished early" (only the exact word counts). With no grid column, the grid defaults to 20. |
| Results.LoadResults | race_data.py:47-59 | The status table holds at most one record per driver number. |
| Results.LoadResultsLastRowWins | race_data.py:49-59 | A driver's record is the classification of their last results row. A driver without a row has no record. |
| Results.LoadResultsFirstSeenOrder | race_data.py:49-59 | Records are kept in the order their drivers first appear in the results, each driver once. This is dict insertion order, which fixes the leaderboard's tie order. |
| Colours.StripHashes | race_data.py:131 | Removes exactly the run of leading '#' characters and nothing else. |
| Colours.ParseHexField | race_data.py:132 | Base-16 parsing of a slice of at most two characters. An empty slice fails. Two hex digits a, b give 16a + b. Every accepted value lies in [-15, 256). |
| Colours.HexToRgb | race_data.py:130-132 | A colour is produced only when at least five characters remain after the '#'s, because a shorter third slice is empty. Every channel lies in [-15, 256). |
| Colours.RoundTrip | race_data.py:130-132 | Any number of '#'s followed by the six-digit form of a colour with channels in [0, 256) parses back to that colour. |
| Colours.SixDigitsParse | race_data.py:130-132 | Every six-hex-digit string parses, with channels in [0, 256). |
| Colours.DefaultIsWhite | race_data.py:88 | The default team colour "FFFFFF" is (255, 255, 255). |
| Colours.ShortStringFails | race_data.py:132 | A three-digit colour such as "FFF" raises. |
| Colours.SignedSliceAccepted | race_data.py:132 | A sign inside a slice is accepted: "#-1FFFF" gives (-1, 255, 255). |
| Colours.SeparatorIsBlank | race_data.py:132 | The information separator 0x1C counts as blank around a field: "\x1cF" parses as 15. |
| Telemetry.LoadDriver | race_data.py:85-126 | A driver is stored exactly when they have laps, non-empty telemetry and a parsable team colour. The stored trace keeps the telemetry columns. Missing lap numbers read as lap 1, and a missing team name as "Unknown". |
| Telemetry.LoadDrivers | race_data.py:77-128 | Every stored driver is stored once, with columns of equal, non-zero length. |
| Telemetry.LoadDriversLastWins | race_data.py:85-123 | A driver is stored exactly when one of their inputs loads, and the stored trace comes from the last input that does. |
| Telemetry.LastLoadable | race_data.py:85-123 | A reference reading of the loader for one driver: it gives a trace exactly when some input of that driver loads (`Seqs.Any`, whose index form `Seqs.AnyMeansSome` proves). |
| Telemetry.SearchLeft | race_data.py:317 | Left bisection: every sample before the returned index is earlier than t, and every sample from it on is at or after t. |
| Telemetry.Interp | race_data.py:219-220 | The first sample's value before the trace and the last sample's value after it. In between, the value on the straight segment through the two samples around t, whichever segment is chosen when t is a sample. |
| Telemetry.InterpAtSample | race_data.py:219-220 | Interpolation reproduces every recorded sample. |
| Telemetry.InterpOnSegment | race_data.py:219-220 | An interpolated position lies between the two samples that bracket the query time. |
| Laps.LapMapLastRowWins | race_data.py:173-181 | Each (driver, lap) entry holds the value of the last row for that pair whose field is present. |
| Laps.LapMapDrivers | race_data.py:173-181 | A driver has an entry exactly when one of their rows has the field. |
| Laps.BuildCompoundMap | race_data.py:394-406 | Compound by driver and lap, the last row with a compound winning. Exactly the drivers with some compound get an entry. |
| Laps.BuildLapPositionMap | race_data.py:169-181 | Position by driver and lap, the last row with a position winning. Exactly the drivers with some position get an entry. |
| LapTimeline.LeaderLaps | race_data.py:138-143 | The laps timed at position 1 when there are any. Otherwise, laps of the driver on the first timed row. The result is never empty. |
| LapTimeline.Chain | race_data.py:153-159 | Each lap keeps its start and lap number and ends where the next one starts. The last lap ends at the given final time. |
| LapTimeline.LatestTimestamp | race_data.py:156 | An upper bound of every driver's timestamps that is itself one of them. |
| LapTimeline.LeaderRows | race_data.py:138-150 | The leader's laps sorted by lap number: a permutation of the laps chosen as the leader's, each with a start time. |
| LapTimeline.LeaderRowsCount | race_data.py:138-150 | The sorted leader rows hold each lap timed at position 1 exactly as often as the usable laps do, and no other lap. With no lap at position 1, they hold each lap of the first row's driver exactly as often, and nothing else. |
| LapTimeline.LeaderTimeline | race_data.py:138-159 | The timeline is the chain of the leader's rows in lap order: their starts and lap numbers, each lap ending where the next starts and the last ending at the latest telemetry sample. It is non-empty and contiguous, and its laps are in order. |
| LapTimeline.LeaderTimelineWellFormed | race_data.py:150-159 | When the leader's starts never decrease and the last start is not after the latest telemetry sample, no lap ends before it starts. |
| LapTimeline.ChainWellFormed | race_data.py:153-159 | Starts that never decrease, lap numbers in order, and a final end not before the last start chain into a timeline where no lap ends before it starts. |
| LapTimeline.BuildLapTimeline | race_data.py:134-159 | A timeline exists exactly when there is telemetry and some lap has a start time; otherwise the source raises. When it exists it is the leader timeline of the laps with a start time: contiguous, in lap order, and ending at the latest telemetry sample. |
| LapTimeline.FirstCovering | race_data.py:163-165 | The index of the first interval [start, end) holding the time, or the length when none does. |
| LapTimeline.LapForTimeFirstCovering | race_data.py:161-167 | The lap shown is that of the first interval covering replay time plus the session start. When no interval covers it, the lap shown is the final lap. |
| LapTimeline.BeforeFirstStartGivesLastLap | race_data.py:161-167 | Before the first lap starts, the lookup returns the final lap, not the first. |
| LapTimeline.ClampsAfterEnd | race_data.py:161-167 | From the end of the timeline on, the lookup returns the final lap. |
| LapTimeline.CoveredInside | race_data.py:163-165 | Between the first start and the last end, some interval covers every time. |
| LapTimeline.LapForTimeMonotone | race_data.py:161-167 | From the first lap's start on, the lap shown never goes backwards as replay time grows. |
| LapTimeline.LapAtMostLast | race_data.py:161-167 | No lookup shows a lap beyond the final one. |
| Frames.GlobalStart | race_data.py:191 | The earliest first sample: no driver starts earlier, and some driver starts exactly then. |
| Frames.GlobalEnd | race_data.py:192 | The latest last sample: no driver ends later, and some driver ends exactly then. |
| Frames.SessionLength | race_data.py:191-193 | The race duration is the latest last sample minus the earliest first sample, and is never negative. |
| Frames.LatestTimestampIsGlobalEnd | race_data.py:156 | For sorted traces, the latest sample of all is the latest last sample, so the lap timeline ends at the session start plus the race duration. |
| Frames.Shift | race_data.py:199 | Moves every timestamp back by the same amount, keeps every other column, and keeps the timestamps sorted. |
| Frames.Normalise | race_data.py:198-199 | Every trace is shifted by the session start. Afterwards no trace starts before 0 and some trace starts at exactly 0. |
| Frames.PlaceDriver | race_data.py:215-236 | A driver is active exactly while t is at or before their last sample. An inactive driver is frozen at the last position. An active one is at the interpolated position, and at the first sample before the trace starts. Every driver shows the frame's lap. |
| Frames.FrameAt | race_data.py:209-236 | One entry per driver, in trace order. Each entry is that driver's trace placed at t with the leader-timeline lap at t. So every entry shows that lap, and is active exactly when t is at or before that driver's last sample. |
| Frames.FrameCount | race_data.py:207-208 | No frames exactly when the duration is negative. |
| Frames.FrameCountBounds | race_data.py:207-208 | The last tick is at or before the duration, and the next tick would be after it. |
| Frames.GenerateFrames | race_data.py:207-239 | Frame k is the frame at replay time k * dt, and exactly FrameCount(duration, dt) frames are made. |
| Frames.TicksWithinSession | race_data.py:207-208 | Every frame time lies in [0, duration], and one more tick would pass the duration. |
| Frames.HourAtTenthSecond | race_data.py:22 | An hour sampled every 0.1 s gives 36001 frames. |
| Frames.AlignTimelinesAndGenerateFrames | race_data.py:183-239 | No traces give no frames and no session start. Otherwise the session start is the earliest sample and the traces are normalised. Frames are sampled from 0 through the race duration. |
| PositionTimeline.TimedLapsOf | race_data.py:258-270 | The driver's rows with a start time, in table order: every row kept is one, and every one is kept. |
| PositionTimeline.TimedRows | race_data.py:254-270 | The driver's timed lap rows in lap order, a permutation of their timed rows in table order, each taken from the lap table. The result is empty exactly when the driver has no timed lap. |
| PositionTimeline.TimedRowsComplete | race_data.py:254-270 | No timed lap of the driver is missing from the timed rows. |
| PositionTimeline.LatestSample | race_data.py:281-282 | Present exactly when the driver has telemetry, and then it is the maximum of their timestamps. |
| PositionTimeline.SpansOf | race_data.py:278-286 | One span per timed lap, with its start, position and lap. Each span ends where the next starts, and the last ends at the final time. |
| PositionTimeline.Placed | race_data.py:288-292 | Keeps only spans that have a position, without inventing any. |
| PositionTimeline.PlacedIsFilter | race_data.py:288-292 | Turned back into spans, the segments are exactly the spans that have a position, in their order. |
| PositionTimeline.PlacedKeeps | race_data.py:288-292 | Every span with a position has its segment in the result. |
| PositionTimeline.PlacedComplete | race_data.py:288-292 | Every timed row with a position is recorded as a segment. |
| PositionTimeline.PlacedAllPresent | race_data.py:288-292 | When every span has a position, none is dropped and each becomes its segment. |
| PositionTimeline.PlacedKeepsLapOrder | race_data.py:288-292 | Dropping spans keeps lap order. |
| PositionTimeline.PlacedKeepsMeeting | race_data.py:278-292 | With no span dropped, the segments meet end to start and end at the same final time. |
| PositionTimeline.TimedSegments | race_data.py:270-294 | Every segment is a recorded timed lap of the driver with its position, every timed row with a position has its segment, and the segments are in lap order. |
| PositionTimeline.DriverSegments | race_data.py:256-294 | A driver with no timed lap gets one one-second segment at the session start (or 0), holding their grid slot, on lap 0. Otherwise every segment is one of their recorded laps, in lap order. |
| PositionTimeline.DriverSegmentsComplete | race_data.py:256-294 | Every timed lap of the driver that has a position appears as a segment. |
| PositionTimeline.SegmentsContiguousWhenPlaced | race_data.py:270-294 | When all of a driver's timed laps have positions, there is one segment per timed lap, contiguous and ending at the driver's final time. |
| PositionTimeline.MissingPositionLeavesGap | race_data.py:288-292 | A timed lap without a position leaves a hole in the timeline: the segments around it do not meet. |
| PositionTimeline.BuildPositionTimeline | race_data.py:246-294 | Exactly the session's drivers get a segment list. A driver without timed laps gets a single lap-0 segment. |
| PitWindows.StopsOf | race_data.py:411-419 | Exactly the driver's rows with a pit-in time, each taken from the lap table. |
| PitWindows.StopsOfIsFilter | race_data.py:411-417 | The driver's stops are the lap table filtered to that driver's rows with a pit-in time. |
| PitWindows.StopsInLapOrder | race_data.py:411-419 | Each pit-in row of the driver is a stop exactly as often as the table holds it. The stops sit in the table at increasing positions, and every pit-in row of the driver is one of them, so they are visited in table order. |
| PitWindows.PitEnd | race_data.py:430-446 | A window always ends after it starts. |
| PitWindows.PitEndSource | race_data.py:430-446 | A window closes 25 s after pit-in, or at a pit-out time recorded on the driver's next lap. With no row for that lap, it always closes 25 s after pit-in. |
| PitWindows.PitEndFromFirstRow | race_data.py:433-446 | Only the first row of the next lap counts. Its pit-out time closes the window when it is after pit-in; otherwise the 25 s fallback applies. |
| PitWindows.StopWindow | race_data.py:421-450 | A window opens at the pit-in time on the replay clock and closes at the pit end found from the driver's next lap, after it opens. |
| PitWindows.DriverPitWindows | race_data.py:415-450 | One window per pit stop: window i is the window of the driver's i-th stop. Each opens at some stop's pit-in time and closes after it opens. |
| PitWindows.WindowsInLapOrder | race_data.py:415-450 | Window k is the window of a pit-in row of the driver. These rows sit at increasing table positions and include every pit-in row of the driver, so the windows follow table order, one per stop. |
| PitWindows.EveryStopHasWindow | race_data.py:419-450 | Every pit stop of the driver has its window in the list. |
| PitWindows.BuildPitWindows | race_data.py:408-452 | Every session driver gets their own per-stop window list, possibly empty. This is the corrected nesting. |
| PitWindows.IsPitting | race_data.py:363-368 | Pitting exactly when some window contains t, both ends included. |
| PitWindows.PittingAtStopEnds | race_data.py:363-368 | A driver is shown pitting at both ends of each of their stops' windows. |
| PitWindows.NoStopsNeverPitting | race_data.py:363-368 | A driver with no stop is never shown pitting. |
| PitWindows.PitWindowsAsWritten | race_data.py:408-452 | As written, the build fails exactly when there are no session drivers or the first has no stops. Otherwise only the last driver is stored, with exactly one window. |
| PitWindows.LastWindowFrom | race_data.py:415-450 | The window left over after the driver loop: none (the source's `UnboundLocalError`) exactly when no stop is carried in and the first remaining driver has none; otherwise it closes after it opens. |
| PitWindows.LastWindowOfLastDriver | race_data.py:415-450 | When the loop does not fail and the last driver has a stop, the window left over is that of the last driver's last stop. |
| PitWindows.AsWrittenKeepsLastWindow | race_data.py:408-452 | As written, when the first and last drivers have stops, the result maps only the last driver to the last of their corrected windows. |
| PitWindows.TwoStopsAsWritten | race_data.py:419-450 | As written, a driver with two stops gets only the second stop's window. |
| PitWindows.TwoStopsCorrected | race_data.py:419-450 | Corrected, the same driver gets both windows. |
| PitWindows.TwoStopsWindows | race_data.py:419-450 | The driver with stops at 1000 s and 2000 s and no next-lap rows gets the windows (1000, 1025) and (2000, 2025). |
| PitWindows.FirstDriverWithoutStopsFails | race_data.py:419-430 | As written, a first driver with no stops makes the whole build fail. Corrected, they get an empty list. |
| PitWindows.StaleStopInherited | race_data.py:415-452 | As written, with drivers "1" and "2" where only "1" stops, only "2" is stored, holding "1"'s window. Corrected, "1" gets that window and "2" none. |
| Leaderboard.DriverProgress | race_data.py:304-322 | A driver without telemetry is on lap 1 and inactive. Before the first sample they are on lap 0, and after the last on the last sample's lap. They are active exactly between the first and last samples, on the lap of the first sample at or after t. |
| Leaderboard.SampleAtOrAfter | race_data.py:317-319 | Inside the trace, the first sample at or after t exists. |
| Leaderboard.DisplayPosition | race_data.py:325-343 | The position shown is 20 once the telemetry has ended. On laps 0 and 1 it is the grid slot, with a grid of 0 shown as 20. Later it is the position recorded for the previous lap, falling back to the raw grid. |
| Leaderboard.EntryFor | race_data.py:302-380 | The entry's lap is the driver's progress lap at t and its position is the position shown for that progress. It keeps the driver's identity and team (default "Unknown"). Its sort key is the position, pushed back by 2000 for a shown DNF. The compound is that of the current lap (default "UNKNOWN"). The pit flag is set exactly when a window holds t. The DNF flag is set exactly when a DNF has no telemetry or is past their last sample. A driver with no telemetry is on lap 1 at their grid slot. |
| Leaderboard.RawEntries | race_data.py:300-380 | One entry per status record, in status-table order. |
| Leaderboard.GetLeaderboard | race_data.py:296-392 | The leaderboard is a permutation of the entries, sorted by sort key and ranked 1, 2, 3, ... |
| Leaderboard.LeaderboardStable | race_data.py:385 | Entries with equal sort keys keep the status table's order. |
| Leaderboard.DnfRanksLast | race_data.py:345-356 | With shown positions below 2000, every driver shown as DNF ranks behind every driver who is not. |
| Leaderboard.AsWrittenOnlyLastDriverPits | race_data.py:452 | With the pit windows as the source stores them, a driver other than the last listed is never shown pitting. |
| Leaderboard.NoTelemetryDriver | race_data.py:304-351 | A driver with a status record but no telemetry is on lap 1 at their grid slot. They show a DNF exactly when the results call them one, with lap 1's compound. |
| Leaderboard.PastLastSample | race_data.py:314-332 | Past their last sample, a driver shows position 20 on their last lap, because the status record never holds a position. They show a DNF exactly when the results call them one. |
| Leaderboard.UnmappedDriverShowsGrid | race_data.py:339-343 | From lap 2 on, an active driver missing from the lap-position map shows the raw grid value, even 0. |
| Sorting.SortByKey | race_data.py:385 | The result is sorted by key and is a permutation of the input. |
| Sorting.SortByKeyStable | race_data.py:385 | For every key, the entries with that key keep their input order. |
| Seqs.FilterCount | race_data.py:411 | A boolean row mask keeps each selected row exactly as often as the table holds it and drops every other row. |
| Seqs.FilterKeepsOrder | race_data.py:411 | A boolean row mask keeps the selected rows in table order: the result is the table at increasing positions, which are exactly the positions of the selected rows. |
| OrderedMaps.Put | race_data.py:54-59 | Dict assignment. The key gets the new value and every other key keeps its value. An existing key keeps its place; a new key goes to the end. |

## Left out

- `load_session` and `load_track`: they load the session from the network and cache, and rotate the circuit outline with trigonometric floats.
- Telemetry.LoadDriver: the coordinate rotation by the circuit angle (floating-point trigonometry) is not modelled. X and Y are taken as already rotated.
- Telemetry.LoadDriver: the failures of `pick_drivers` and `get_telemetry` are inputs (`hasLaps`, empty columns). Only the colour parse is a modelled cause of the caught exception.
- `session.get_driver` is a function parameter of the leaderboard, and table extraction (`dropna`, `iterrows`, `total_seconds`) is done by the caller. Lap rows arrive with `None` for missing cells.
- Frames.GenerateFrames: frame k is sampled at exactly k * dt in exact reals. The drift of adding 0.1 repeatedly in floating point, which can gain or lose a final frame, is not modelled.
- Results.ClassifyRow: lower-casing is ASCII only. Python's Unicode case mapping is not modelled.
- Results.ClassifyRow: the grid value is an integer. The float `GridPosition`, its truncation by `int()`, and NaN grids (which make `int()` raise) are not modelled.
- Colours.ParseHexField: models `int(s, 16)` on the slices of at most two characters that `hex_to_rgb` produces, with ASCII digits, signs and ASCII whitespace only (blank, tab, line and page breaks, and the separators 0x1C to 0x1F). Python also accepts other Unicode whitespace and non-ASCII decimal digits (a no-break space before "F", or an Arabic-Indic three before "F"); the model rejects those.
- Telemetry.ValidTrace: telemetry timestamps are assumed strictly increasing, as the timing library delivers them. Unsorted or repeated timestamps, which `np.interp` and `np.searchsorted` accept without checking, are not modelled.
- Lap numbers and positions are integers. NaN lap numbers in telemetry, which make `int()` raise, are not modelled.
- Sorting.SortByKey: pandas' single-column `sort_values` uses an unstable quicksort. The model uses one stable sort, which is one of the orders the source may produce on ties.
- Leaderboard.DriverProgress: the `index >= len(laps)` branch of the searchsorted step is unreachable for a time inside a sorted trace, so it has no case in the model.
- The unused local `lap` in the frame loop (race_data.py:226) and the debug prints (race_data.py:382-383 and elsewhere) have no effect on the data.
- `last_visual_order` and `last_visual_time` are never read by the modelled code.
- The broad `except`/`continue` around the pit-in conversion cannot fire once rows arrive as `Option` values. The one around the next-lap lookup likewise: a missing lap is the empty case.
- The user interface and scripts (`main.py`, `menu.py`, `leaderboard.py`, `track_data.py`) are not part of this model.

## Findings

| source | as written | input that shows it | evidently intended | confidence | as-written member | corrected member |
|---|---|---|---|---|---|---|
| race_data.py:419-450 | The window is computed and appended after the loop over the driver's stops, so only the last stop gets a window. A driver with no stops reuses the previous driver's last `row` and `pit_start`, or raises when no driver before them had a stop. | Driver "1" with stops on laps 10 and 20 (one window instead of two); drivers ["1", "2"] where only "1" stopped ("2" inherits the window); drivers ["2", "1"] (the build fails) | One window per pit stop, built inside the loop; a driver without stops gets an empty list | not executed | PitWindows.PitWindowsAsWritten (shown by PitWindows.TwoStopsAsWritten, PitWindows.FirstDriverWithoutStopsFails) | PitWindows.BuildPitWindows (proved by PitWindows.TwoStopsCorrected, PitWindows.EveryStopHasWindow) |
| race_data.py:452 | The store `self.pit_windows[str(driver)] = windows` sits after the driver loop, so it runs once: only the last session driver gets an entry, and with no session drivers it raises `NameError`. | Drivers ["1", "2"] where only "1" stopped give {"2": [(1000.0, 1025.0)]}: "1" is missing and "2" holds "1"'s stop | Every session driver keyed to their own windows | not executed | PitWindows.PitWindowsAsWritten (shown by PitWindows.StaleStopInherited, PitWindows.AsWrittenKeepsLastWindow, Leaderboard.AsWrittenOnlyLastDriverPits) | PitWindows.BuildPitWindows (keys are the session drivers; proved by PitWindows.StaleStopInherited, PitWindows.EveryStopHasWindow) |
