/** Rows of the session's lap table and the driver -> lap -> value maps built
    from them (tyre compound by lap, running position by lap). */
module Laps {
  import opened Options

  /** One lap-table row. `None` stands for a missing (NaN) cell. */
  datatype LapRecord = LapRecord(
    driver: string,
    lap: int,
    position: Option<int>,
    compound: Option<string>,
    start: Option<real>,
    pitIn: Option<real>,
    pitOut: Option<real>)

  /** driver number -> lap number -> value. */
  type LapMap<V> = map<string, map<int, V>>

  /** Reads `m[driver][lap]`, if both keys are present. */
  function LapLookup<V>(m: LapMap<V>, driver: string, lap: int): Option<V> {
    if driver in m && lap in m[driver] then Some(m[driver][lap]) else None
  }

  /** Rows whose `field` is missing are dropped; every other row stores its
      value under (driver, lap), a later row overwriting an earlier one. */
  function BuildLapMap<V>(laps: seq<LapRecord>, field: LapRecord -> Option<V>): LapMap<V> {
    if |laps| == 0 then map[]
    else
      var m := BuildLapMap(laps[..|laps| - 1], field);
      var row := laps[|laps| - 1];
      match field(row)
      case None => m
      case Some(v) =>
        var inner := if row.driver in m then m[row.driver] else map[];
        m[row.driver := inner[row.lap := v]]
  }

  /** Reference reading: the value of the last row for (driver, lap) whose
      field is present. */
  function LastValue<V>(laps: seq<LapRecord>, field: LapRecord -> Option<V>, driver: string, lap: int): Option<V> {
    if |laps| == 0 then None
    else
      var row := laps[|laps| - 1];
      if row.driver == driver && row.lap == lap && field(row).Some? then field(row)
      else LastValue(laps[..|laps| - 1], field, driver, lap)
  }

  lemma {:induction false} LapMapLastRowWins<V>(laps: seq<LapRecord>, field: LapRecord -> Option<V>, driver: string, lap: int)
    ensures LapLookup(BuildLapMap(laps, field), driver, lap) == LastValue(laps, field, driver, lap)
  {
    if |laps| > 0 {
      LapMapLastRowWins(laps[..|laps| - 1], field, driver, lap);
    }
  }

  /** A driver has an entry exactly when one of their rows has the field. */
  lemma {:induction false} LapMapDrivers<V>(laps: seq<LapRecord>, field: LapRecord -> Option<V>, driver: string)
    ensures driver in BuildLapMap(laps, field) <==>
      exists i :: 0 <= i < |laps| && laps[i].driver == driver && field(laps[i]).Some?
  {
    if |laps| > 0 {
      var init := laps[..|laps| - 1];
      LapMapDrivers(init, field, driver);
      if driver in BuildLapMap(init, field) {
        var i :| 0 <= i < |init| && init[i].driver == driver && field(init[i]).Some?;
        assert laps[i] == init[i];
      }
      if exists i :: 0 <= i < |laps| && laps[i].driver == driver && field(laps[i]).Some? {
        var i :| 0 <= i < |laps| && laps[i].driver == driver && field(laps[i]).Some?;
        if i < |init| { assert init[i] == laps[i]; }
      }
    }
  }

  function CompoundOf(r: LapRecord): Option<string> { r.compound }

  function PositionOf(r: LapRecord): Option<int> { r.position }

  /** `build_compound_map`: the tyre compound each driver ran on each lap. */
  function BuildCompoundMap(laps: seq<LapRecord>): (m: LapMap<string>)
    ensures forall d, lap :: LapLookup(m, d, lap) == LastValue(laps, CompoundOf, d, lap)
    ensures forall d :: d in m <==> exists i :: 0 <= i < |laps| && laps[i].driver == d && laps[i].compound.Some?
  {
    var m := BuildLapMap(laps, CompoundOf);
    forall d, lap ensures LapLookup(m, d, lap) == LastValue(laps, CompoundOf, d, lap) {
      LapMapLastRowWins(laps, CompoundOf, d, lap);
    }
    forall d ensures d in m <==> exists i :: 0 <= i < |laps| && laps[i].driver == d && laps[i].compound.Some? {
      LapMapDrivers(laps, CompoundOf, d);
    }
    m
  }

  /** `build_lap_position_map`: each driver's running position after each lap. */
  function BuildLapPositionMap(laps: seq<LapRecord>): (m: LapMap<int>)
    ensures forall d, lap :: LapLookup(m, d, lap) == LastValue(laps, PositionOf, d, lap)
    ensures forall d :: d in m <==> exists i :: 0 <= i < |laps| && laps[i].driver == d && laps[i].position.Some?
  {
    var m := BuildLapMap(laps, PositionOf);
    forall d, lap ensures LapLookup(m, d, lap) == LastValue(laps, PositionOf, d, lap) {
      LapMapLastRowWins(laps, PositionOf, d, lap);
    }
    forall d ensures d in m <==> exists i :: 0 <= i < |laps| && laps[i].driver == d && laps[i].position.Some? {
      LapMapDrivers(laps, PositionOf, d);
    }
    m
  }
}
