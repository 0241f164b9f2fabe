/** The live leaderboard at one replay time: every driver with a results row
    gets an entry (lap, shown position, tyre, DNF and pit flags); entries are
    ordered by a sort key that sends shown DNFs to the back, then numbered
    1, 2, 3, ... */
module Leaderboard {
  import opened Options
  import opened Seqs
  import opened Sorting
  import opened OrderedMaps
  import opened Results
  import opened Laps
  import opened Telemetry
  import opened PitWindows

  /** The position shown for a driver past their last telemetry sample (the
      status record never carries a finishing position). */
  const RetiredPosition: int := 20

  /** Added to the sort key of a driver shown as DNF. */
  const DnfOffset: int := 2000

  /** Tyre shown when the compound of the current lap is unknown. */
  const UnknownCompound: string := "UNKNOWN"

  /** What the session reports about a driver (an external lookup). */
  datatype DriverInfo = DriverInfo(abbreviation: string, team: Option<string>)

  /** The lap a driver is on at replay time `t` and whether they are between
      their first and last telemetry samples. */
  datatype Progress = Progress(lap: int, active: bool)

  datatype Entry = Entry(
    driver: string,
    position: int,
    sortKey: int,
    abbreviation: string,
    lap: int,
    team: string,
    compound: string,
    dnf: bool,
    pitting: bool)

  /** A leaderboard row: its rank and the entry ranked there. */
  datatype Standing = Standing(rank: int, entry: Entry)

  /** A driver without telemetry is on lap 1 and inactive; before their first
      sample they are on lap 0, after their last on the last sample's lap;
      in between they are active, on the lap of the first sample at or after
      `t` (`np.searchsorted`). */
  function DriverProgress(trace: Option<Trace>, t: real): (p: Progress)
    requires trace.Some? ==> ValidTrace(trace.value)
    ensures trace.None? ==> p == Progress(1, false)
    ensures p.active <==> trace.Some? && trace.value.ts[0] <= t <= Last(trace.value.ts)
    ensures trace.Some? && t < trace.value.ts[0] ==> p.lap == 0
    ensures trace.Some? && t > Last(trace.value.ts) ==> p.lap == Last(trace.value.laps)
    ensures p.active ==> exists i :: (0 <= i < |trace.value.ts| &&
      t <= trace.value.ts[i] && (i == 0 || trace.value.ts[i - 1] < t) && p.lap == trace.value.laps[i])
  {
    match trace
    case None => Progress(1, false)
    case Some(tr) =>
      if t < tr.ts[0] then Progress(0, false)
      else if t > Last(tr.ts) then Progress(Last(tr.laps), false)
      else
        var i := SampleAtOrAfter(tr.ts, t);
        assert tr == trace.value;
        assert t <= tr.ts[i] && (i == 0 || tr.ts[i - 1] < t);
        Progress(tr.laps[i], true)
  }

  /** `np.searchsorted` on a time inside the trace: the first sample at or
      after `t`, which always exists. */
  function SampleAtOrAfter(ts: seq<real>, t: real): (i: nat)
    requires |ts| > 0 && Increasing(ts) && ts[0] <= t <= Last(ts)
    ensures i < |ts| && t <= ts[i] && (i == 0 || ts[i - 1] < t)
  {
    IncreasingIsNonDecreasing(ts);
    var i := SearchLeft(ts, t);
    assert ts[|ts| - 1] == Last(ts);
    i
  }

  /** The grid slot shown on lap 0 or 1: a recorded grid position of 0
      (pit-lane start) is shown as 20. */
  function StartingSlot(grid: int): int {
    if grid == 0 then DefaultGrid else grid
  }

  /** The position shown for a driver: 20 once their telemetry has ended;
      their grid slot on laps 0 and 1; afterwards the position recorded at the
      end of the previous lap, or the raw grid value when none is recorded. */
  function DisplayPosition(trace: Option<Trace>, st: DriverStatus, lapPositions: LapMap<int>, d: string,
                           p: Progress, t: real): (pos: int)
    requires trace.Some? ==> ValidTrace(trace.value)
    ensures trace.Some? && t > Last(trace.value.ts) && !p.active ==> pos == RetiredPosition
    ensures !(trace.Some? && t > Last(trace.value.ts) && !p.active) && p.lap <= 1 ==>
      pos == (if st.grid == 0 then 20 else st.grid)
    ensures !(trace.Some? && t > Last(trace.value.ts) && !p.active) && p.lap > 1 ==>
      pos == LapLookup(lapPositions, d, p.lap - 1).GetOr(st.grid)
  {
    if !p.active && trace.Some? && t > Last(trace.value.ts) then RetiredPosition
    else if p.lap <= 1 then StartingSlot(st.grid)
    else LapLookup(lapPositions, d, p.lap - 1).GetOr(st.grid)
  }

  /** A DNF is shown once a retired driver's telemetry has ended, or at once
      when they have no telemetry. */
  predicate ShowDnf(trace: Option<Trace>, st: DriverStatus, t: real)
    requires trace.Some? ==> |trace.value.ts| > 0
  {
    st.isDnf && (trace.None? || t > Last(trace.value.ts))
  }

  function SortKeyOf(e: Entry): int { e.sortKey }

  /** The sort key is the shown position, pushed back by 2000 for a shown DNF. */
  predicate KeyedByDnf(e: Entry) {
    e.sortKey == (if e.dnf then DnfOffset + e.position else e.position)
  }

  /** The unranked entry of driver `d` with status `st` at replay time `t`. */
  function EntryFor(d: string, st: DriverStatus, data: seq<Binding<string, Trace>>, lapPositions: LapMap<int>,
                    compounds: LapMap<string>, pitWindows: map<string, seq<Window>>,
                    info: string -> DriverInfo, t: real): (e: Entry)
    requires AllValid(data)
    ensures e.driver == d && e.abbreviation == info(d).abbreviation && e.team == info(d).team.GetOr("Unknown")
    ensures KeyedByDnf(e)
    ensures e.compound == LapLookup(compounds, d, e.lap).GetOr(UnknownCompound)
    ensures e.pitting <==> (d in pitWindows &&
      exists i :: 0 <= i < |pitWindows[d]| && pitWindows[d][i].start <= t <= pitWindows[d][i].end)
    ensures e.dnf <==> st.isDnf && (!HasKey(data, d) || t > Last(Lookup(data, d).value.ts))
    ensures !HasKey(data, d) ==> e.lap == 1 && e.position == StartingSlot(st.grid)
    ensures e.lap == DriverProgress(TraceOf(data, d), t).lap
    ensures e.position == DisplayPosition(TraceOf(data, d), st, lapPositions, d, DriverProgress(TraceOf(data, d), t), t)
  {
    var trace := TraceOf(data, d);
    var p := DriverProgress(trace, t);
    var pos := DisplayPosition(trace, st, lapPositions, d, p, t);
    var dnf := ShowDnf(trace, st, t);
    Entry(d, pos, if dnf then DnfOffset + pos else pos, info(d).abbreviation, p.lap, info(d).team.GetOr("Unknown"),
          LapLookup(compounds, d, p.lap).GetOr(UnknownCompound), dnf,
          d in pitWindows && IsPitting(pitWindows[d], t))
  }

  /** One entry per status record, in the status table's order. */
  function RawEntries(status: StatusTable, data: seq<Binding<string, Trace>>, lapPositions: LapMap<int>,
                      compounds: LapMap<string>, pitWindows: map<string, seq<Window>>,
                      info: string -> DriverInfo, t: real): (es: seq<Entry>)
    requires AllValid(data)
    ensures |es| == |status|
    ensures forall i :: 0 <= i < |es| ==>
      es[i] == EntryFor(status[i].key, status[i].value, data, lapPositions, compounds, pitWindows, info, t)
  {
    seq(|status|, i requires 0 <= i < |status| =>
      EntryFor(status[i].key, status[i].value, data, lapPositions, compounds, pitWindows, info, t))
  }

  /** Rank `i + 1` for the entry at index `i`. */
  function Rank(es: seq<Entry>): (r: seq<Standing>)
    ensures |r| == |es|
    ensures forall i :: 0 <= i < |r| ==> r[i] == Standing(i + 1, es[i])
  {
    seq(|es|, i requires 0 <= i < |es| => Standing(i + 1, es[i]))
  }

  function EntriesOf(r: seq<Standing>): (es: seq<Entry>)
    ensures |es| == |r| && forall i :: 0 <= i < |r| ==> es[i] == r[i].entry
  {
    seq(|r|, i requires 0 <= i < |r| => r[i].entry)
  }

  /** `get_leaderboard`: every status record's entry, ordered by sort key
      (ties keep the status table's order) and ranked from 1. */
  function GetLeaderboard(status: StatusTable, data: seq<Binding<string, Trace>>, lapPositions: LapMap<int>,
                          compounds: LapMap<string>, pitWindows: map<string, seq<Window>>,
                          info: string -> DriverInfo, t: real): (r: seq<Standing>)
    requires AllValid(data)
    ensures |r| == |status|
    ensures forall i :: 0 <= i < |r| ==> r[i].rank == i + 1
    ensures multiset(EntriesOf(r)) == multiset(RawEntries(status, data, lapPositions, compounds, pitWindows, info, t))
    ensures SortedBy(EntriesOf(r), SortKeyOf)
  {
    var raw := RawEntries(status, data, lapPositions, compounds, pitWindows, info, t);
    var sorted := SortByKey(raw, SortKeyOf);
    var r := Rank(sorted);
    assert EntriesOf(r) == sorted;
    r
  }

  /** Entries with equal sort keys keep the status table's order. */
  lemma LeaderboardStable(status: StatusTable, data: seq<Binding<string, Trace>>, lapPositions: LapMap<int>,
                          compounds: LapMap<string>, pitWindows: map<string, seq<Window>>,
                          info: string -> DriverInfo, t: real, k: int)
    requires AllValid(data)
    ensures var raw := RawEntries(status, data, lapPositions, compounds, pitWindows, info, t);
      WithKey(EntriesOf(GetLeaderboard(status, data, lapPositions, compounds, pitWindows, info, t)), SortKeyOf, k) ==
      WithKey(raw, SortKeyOf, k)
  {
    var raw := RawEntries(status, data, lapPositions, compounds, pitWindows, info, t);
    assert EntriesOf(GetLeaderboard(status, data, lapPositions, compounds, pitWindows, info, t)) == SortByKey(raw, SortKeyOf);
    SortByKeyStable(raw, SortKeyOf, k);
  }

  /** With shown positions below 2000, every driver shown as DNF is ranked
      behind every driver who is not. */
  lemma DnfRanksLast(status: StatusTable, data: seq<Binding<string, Trace>>, lapPositions: LapMap<int>,
                     compounds: LapMap<string>, pitWindows: map<string, seq<Window>>,
                     info: string -> DriverInfo, t: real, i: nat, j: nat)
    requires AllValid(data)
    requires var r := GetLeaderboard(status, data, lapPositions, compounds, pitWindows, info, t);
      i < |r| && j < |r| && r[i].entry.dnf && !r[j].entry.dnf &&
      0 <= r[i].entry.position < DnfOffset && r[j].entry.position < DnfOffset
    ensures j < i
  {
    var r := GetLeaderboard(status, data, lapPositions, compounds, pitWindows, info, t);
    var es := EntriesOf(r);
    var raw := RawEntries(status, data, lapPositions, compounds, pitWindows, info, t);
    assert KeyedByDnf(es[i]) && KeyedByDnf(es[j]) by {
      KeyedEntries(raw, es);
    }
    assert SortKeyOf(es[j]) < SortKeyOf(es[i]);
  }

  /** A permutation of keyed entries is keyed. */
  lemma KeyedEntries(raw: seq<Entry>, es: seq<Entry>)
    requires forall i :: 0 <= i < |raw| ==> KeyedByDnf(raw[i])
    requires multiset(es) == multiset(raw)
    ensures forall i :: 0 <= i < |es| ==> KeyedByDnf(es[i])
  {
    forall i | 0 <= i < |es| ensures KeyedByDnf(es[i]) {
      assert es[i] in multiset(raw);
    }
  }

  /** With the pit windows as the source stores them, a driver other than the
      last one listed is never shown as pitting, whatever their stops. */
  lemma AsWrittenOnlyLastDriverPits(laps: seq<LapRecord>, drivers: seq<string>, globalStart: Option<real>,
                                    d: string, st: DriverStatus, data: seq<Binding<string, Trace>>,
                                    lapPositions: LapMap<int>, compounds: LapMap<string>,
                                    info: string -> DriverInfo, t: real)
    requires AllValid(data)
    requires PitWindowsAsWritten(laps, drivers, globalStart).Some?
    requires d != Last(drivers)
    ensures !EntryFor(d, st, data, lapPositions, compounds, PitWindowsAsWritten(laps, drivers, globalStart).value,
                      info, t).pitting
  {
    assert d !in PitWindowsAsWritten(laps, drivers, globalStart).value;
  }

  /** A driver with a results row but no telemetry: lap 1, grid slot shown,
      DNF shown exactly when the results call it a DNF, never active. */
  lemma NoTelemetryDriver(d: string, st: DriverStatus, data: seq<Binding<string, Trace>>, lapPositions: LapMap<int>,
                          compounds: LapMap<string>, pitWindows: map<string, seq<Window>>,
                          info: string -> DriverInfo, t: real)
    requires AllValid(data) && !HasKey(data, d)
    ensures var e := EntryFor(d, st, data, lapPositions, compounds, pitWindows, info, t);
      e.lap == 1 && e.position == StartingSlot(st.grid) && e.dnf == st.isDnf &&
      e.compound == LapLookup(compounds, d, 1).GetOr(UnknownCompound)
  {
  }

  /** Past the last sample a driver shows position 20 on their last lap. */
  lemma PastLastSample(d: string, st: DriverStatus, data: seq<Binding<string, Trace>>, lapPositions: LapMap<int>,
                       compounds: LapMap<string>, pitWindows: map<string, seq<Window>>,
                       info: string -> DriverInfo, t: real)
    requires AllValid(data) && HasKey(data, d)
    requires t > Last(Lookup(data, d).value.ts)
    ensures var e := EntryFor(d, st, data, lapPositions, compounds, pitWindows, info, t);
      e.position == RetiredPosition && e.lap == Last(Lookup(data, d).value.laps) && e.dnf == st.isDnf
  {
    var trace := Lookup(data, d);
    var i :| 0 <= i < |data| && data[i] == Binding(d, trace.value);
    assert ValidTrace(trace.value);
  }

  /** From lap 2 on, an active driver absent from the lap-position map shows
      the raw grid value, even a grid value of 0. */
  lemma UnmappedDriverShowsGrid(d: string, st: DriverStatus, data: seq<Binding<string, Trace>>,
                                compounds: LapMap<string>, pitWindows: map<string, seq<Window>>,
                                info: string -> DriverInfo, t: real)
    requires AllValid(data) && HasKey(data, d)
    requires var tr := Lookup(data, d).value; tr.ts[0] <= t <= Last(tr.ts)
    requires DriverProgress(Lookup(data, d), t).lap >= 2
    ensures EntryFor(d, st, data, map[], compounds, pitWindows, info, t).position == st.grid
  {
    var trace := Lookup(data, d);
    var i :| 0 <= i < |data| && data[i] == Binding(d, trace.value);
    assert ValidTrace(trace.value);
  }
}
