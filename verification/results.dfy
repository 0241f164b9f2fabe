/** Final race results: each row of the results table becomes a driver status
    record holding the status text, a DNF flag and the grid position. */
module Results {
  import opened Options
  import opened OrderedMaps

  /** Grid slot used when the results table has no grid position. */
  const DefaultGrid: int := 20

  /** One row of the results table. `grid` is `None` when the table has no
      grid-position column. */
  datatype ResultRow = ResultRow(driver: string, status: string, grid: Option<int>)

  datatype DriverStatus = DriverStatus(status: string, isDnf: bool, grid: int)

  /** Status records keyed by driver number, in first-seen order. */
  type StatusTable = seq<Binding<string, DriverStatus>>

  function LowerChar(c: char): char {
    if 'A' <= c <= 'Z' then (c as int + 32) as char else c
  }

  /** ASCII lower-casing. */
  function Lower(s: string): (r: string)
    ensures |r| == |s|
    ensures forall i :: 0 <= i < |s| ==> r[i] == LowerChar(s[i])
  {
    seq(|s|, i requires 0 <= i < |s| => LowerChar(s[i]))
  }

  /** A status counts as finished when it reads "finished" in any letter case,
      or carries a lapped-finisher marker such as "+1 Lap". */
  predicate IsFinished(status: string) {
    Lower(status) == "finished" || '+' in status
  }

  function ClassifyRow(row: ResultRow): (s: DriverStatus)
    ensures s.status == row.status
    ensures s.isDnf <==> Lower(row.status) != "finished" && forall i :: 0 <= i < |row.status| ==> row.status[i] != '+'
    ensures row.grid.None? ==> s.grid == 20
    ensures row.grid.Some? ==> s.grid == row.grid.value
  {
    DriverStatus(row.status, !IsFinished(row.status), row.grid.GetOr(DefaultGrid))
  }

  /** The DNF decision ignores letter case. */
  lemma {:induction false} DnfIgnoresCase(status: string)
    ensures ClassifyRow(ResultRow("", status, None)).isDnf == ClassifyRow(ResultRow("", Lower(status), None)).isDnf
  {
    var low := Lower(status);
    assert Lower(low) == low;
    assert ('+' in status) == ('+' in low) by {
      if '+' in status {
        var i :| 0 <= i < |status| && status[i] == '+';
        assert low[i] == '+';
      }
      if '+' in low {
        var i :| 0 <= i < |low| && low[i] == '+';
        assert status[i] == '+';
      }
    }
  }

  /** Finishers: "finished" in any letter case, or a lapped-finisher mark. */
  lemma FinishedExamples()
    ensures !ClassifyRow(ResultRow("1", "Finished", Some(1))).isDnf
    ensures !ClassifyRow(ResultRow("1", "FINISHED", Some(1))).isDnf
    ensures !ClassifyRow(ResultRow("1", "+1 Lap", Some(1))).isDnf
  {
    assert Lower("Finished") == "finished";
    assert Lower("FINISHED") == "finished";
    assert "+1 Lap"[0] == '+';
  }

  /** Any other status is a DNF, even one that merely starts with "Finished";
      a missing grid position defaults to 20. */
  lemma DnfExamples()
    ensures ClassifyRow(ResultRow("1", "Retired", Some(1))).isDnf
    ensures ClassifyRow(ResultRow("1", "Finished early", None)) == DriverStatus("Finished early", true, 20)
  {
    assert Lower("Retired")[0] != "finished"[0];
    assert |Lower("Finished early")| != |"finished"|;
  }

  /** `load_results`: every row is classified and stored under its driver
      number; a later row for the same driver replaces the earlier record. */
  function LoadResults(rows: seq<ResultRow>): (t: StatusTable)
    ensures DistinctKeys(t)
  {
    if |rows| == 0 then []
    else
      var row := rows[|rows| - 1];
      Put(LoadResults(rows[..|rows| - 1]), row.driver, ClassifyRow(row))
  }

  /** Index of the last row for `d`, if any: a reference for which row wins. */
  function LastRowFor(rows: seq<ResultRow>, d: string): (r: Option<nat>)
    ensures r.Some? ==> r.value < |rows| && rows[r.value].driver == d
    ensures r.Some? ==> forall j :: r.value < j < |rows| ==> rows[j].driver != d
    ensures r.None? ==> forall j :: 0 <= j < |rows| ==> rows[j].driver != d
  {
    if |rows| == 0 then None
    else if rows[|rows| - 1].driver == d then Some(|rows| - 1)
    else LastRowFor(rows[..|rows| - 1], d)
  }

  /** The status of a driver is the classification of their last results row;
      drivers without a row have no status. */
  lemma {:induction false} LoadResultsLastRowWins(rows: seq<ResultRow>, d: string)
    ensures LastRowFor(rows, d).None? ==> Lookup(LoadResults(rows), d).None?
    ensures LastRowFor(rows, d).Some? ==>
      LastRowFor(rows, d).value < |rows| &&
      Lookup(LoadResults(rows), d) == Some(ClassifyRow(rows[LastRowFor(rows, d).value]))
  {
    if |rows| > 0 {
      LoadResultsLastRowWins(rows[..|rows| - 1], d);
    }
  }

  /** Driver numbers in the order they first appear in the table, each once:
      the reference for the order of the status records. */
  function FirstSeenDrivers(rows: seq<ResultRow>): (ds: seq<string>)
    ensures forall i, j :: 0 <= i < j < |ds| ==> ds[i] != ds[j]
    ensures forall d :: d in ds <==> exists i :: 0 <= i < |rows| && rows[i].driver == d
  {
    if |rows| == 0 then []
    else
      var init, d := rows[..|rows| - 1], rows[|rows| - 1].driver;
      var ds0 := FirstSeenDrivers(init);
      assert forall i :: 0 <= i < |init| ==> init[i] == rows[i];
      if d in ds0 then ds0 else ds0 + [d]
  }

  /** Status records are kept in the order their drivers first appear. */
  lemma {:induction false} LoadResultsFirstSeenOrder(rows: seq<ResultRow>)
    ensures Keys(LoadResults(rows)) == FirstSeenDrivers(rows)
  {
    if |rows| > 0 {
      var init, row := rows[..|rows| - 1], rows[|rows| - 1];
      var t0 := LoadResults(init);
      LoadResultsFirstSeenOrder(init);
      assert HasKey(t0, row.driver) <==> row.driver in Keys(t0) by {
        if row.driver in Keys(t0) {
          var i :| 0 <= i < |t0| && Keys(t0)[i] == row.driver;
          assert t0[i].key == row.driver;
        }
      }
    }
  }
}
