/** `webscraping/data_preprocessing.py`: the per-year aggregators (lines 7-65) and
    the script steps that join, drop and fill the master table (lines 90-120). */
module Preprocessing {
  import opened Wrappers
  import opened Strings
  import opened Frames
  import opened Merging
  import opened Scraper

  // ---------------------------------------------------------------------------
  // Aggregators: `historical_roy_awards`, `historical_advanced_stats`,
  // `historical_standings`

  /** `x['year'] = year` (lines 18, 38, 58): the column is added (or overwritten)
      with the same value in every row. */
  function TagYear(t: Table, year: int): Table
  {
    SetColumn(t, "year", Some(Int(year)))
  }

  /** The list `table` once the loop has visited the years `start .. end - 1`: one
      tagged table per year whose extractor returned a table, in year order. */
  function Collected(start: int, end: int, extract: int -> Option<Table>): seq<Table>
    decreases end - start
  {
    if end <= start then []
    else
      var prior := Collected(start, end - 1, extract);
      match extract(end - 1)
      case None => prior
      case Some(t) => prior + [TagYear(t, end - 1)]
  }

  /** One more year visited: its table, tagged, is appended when there is one. */
  lemma CollectedNext(start: int, year: int, extract: int -> Option<Table>)
    requires start <= year
    ensures Collected(start, year + 1, extract) ==
      if extract(year).Some? then Collected(start, year, extract) + [TagYear(extract(year).value, year)]
      else Collected(start, year, extract)
  {
  }

  /** The loop shared by the three aggregators: visit `range(start, end)`, skip the
      years whose extractor gave `None`, tag the others with their year, and
      concatenate (`pd.concat` raises on an empty list: `None`). */
  method Historical(start: int, end: int, extract: int -> Option<Table>) returns (r: Option<Table>)
    ensures r == Concat(Collected(start, end, extract))
  {
    var table: seq<Table> := [];
    var year := start;
    while year < end
      invariant start <= year && (year <= end || year == start)
      invariant table == Collected(start, year, extract)
    {
      var x := extract(year);
      CollectedNext(start, year, extract);
      if x.Some? {
        table := table + [TagYear(x.value, year)];
      }
      year := year + 1;
    }
    assert table == Collected(start, end, extract);
    r := Concat(table);
  }

  /** The extractor each aggregator calls, on the page fetched for a year. */
  function RoyByYear(pages: int -> Page<Option<Table>>): int -> Option<Table>
  {
    y => ExtractRoy(pages(y))
  }

  function AdvancedByYear(pages: int -> Page<Option<Table>>): int -> Option<Table>
  {
    y => ExtractAdvanced(pages(y))
  }

  function StandingsByYear(pages: int -> Page<StandingsPage>): int -> Option<Table>
  {
    y => ExtractStandings(pages(y))
  }

  /** `historical_roy_awards` (lines 7-25). */
  method HistoricalRoyAwards(start: int, end: int, pages: int -> Page<Option<Table>>) returns (r: Option<Table>)
    ensures r == Concat(Collected(start, end, RoyByYear(pages)))
  {
    r := Historical(start, end, RoyByYear(pages));
  }

  /** `historical_advanced_stats` (lines 27-45). */
  method HistoricalAdvancedStats(start: int, end: int, pages: int -> Page<Option<Table>>) returns (r: Option<Table>)
    ensures r == Concat(Collected(start, end, AdvancedByYear(pages)))
  {
    r := Historical(start, end, AdvancedByYear(pages));
  }

  /** `historical_standings` (lines 47-65). */
  method HistoricalStandings(start: int, end: int, pages: int -> Page<StandingsPage>) returns (r: Option<Table>)
    ensures r == Concat(Collected(start, end, StandingsByYear(pages)))
  {
    r := Historical(start, end, StandingsByYear(pages));
  }

  /** The aggregate fails exactly when no year gave a table. */
  lemma {:induction false} HistoricalFails(start: int, end: int, extract: int -> Option<Table>)
    ensures Concat(Collected(start, end, extract)).None? <==> forall y | start <= y < end :: extract(y).None?
    decreases end - start
  {
    if end > start {
      HistoricalFails(start, end - 1, extract);
    }
  }

  /** The number of rows of the tables the years gave (a year giving `None` adds none). */
  function YearRows(start: int, end: int, extract: int -> Option<Table>): nat
    decreases end - start
  {
    if end <= start then 0
    else YearRows(start, end - 1, extract) + (if extract(end - 1).Some? then |extract(end - 1).value.rows| else 0)
  }

  lemma {:induction false} CollectedRows(start: int, end: int, extract: int -> Option<Table>)
    ensures TotalRows(Collected(start, end, extract)) == YearRows(start, end, extract)
    decreases end - start
  {
    if end > start {
      CollectedRows(start, end - 1, extract);
      CollectedNext(start, end - 1, extract);
      var x := extract(end - 1);
      if x.Some? {
        TotalRowsAppend(Collected(start, end - 1, extract), TagYear(x.value, end - 1));
      }
    }
  }

  /** The aggregate has exactly as many rows as the per-year tables together. */
  lemma HistoricalRowCount(start: int, end: int, extract: int -> Option<Table>)
    requires Concat(Collected(start, end, extract)).Some?
    ensures |Concat(Collected(start, end, extract)).value.rows| == YearRows(start, end, extract)
  {
    var c := Collected(start, end, extract);
    ConcatRowCount(c, UnionColumns(c));
    CollectedRows(start, end, extract);
  }

  /** A row tagged with a year in `[lo, hi)`. */
  predicate TaggedIn(r: Row, lo: int, hi: int)
  {
    "year" in r && r["year"].Some? && r["year"].value.Int? && lo <= r["year"].value.i < hi
  }

  function YearOf(r: Row): int
    requires "year" in r && r["year"].Some? && r["year"].value.Int?
  {
    r["year"].value.i
  }

  /** Every collected table has the `year` column. */
  lemma {:induction false} CollectedHaveYear(start: int, end: int, extract: int -> Option<Table>)
    ensures forall i | 0 <= i < |Collected(start, end, extract)| :: "year" in Collected(start, end, extract)[i].columns
    decreases end - start
  {
    if end > start {
      CollectedHaveYear(start, end - 1, extract);
    }
  }

  /** The rows a year's table contributes, once widened, carry that year. */
  lemma TaggedRows(t: Table, y: int, cols: seq<string>)
    requires "year" in cols
    ensures forall k | 0 <= k < |t.rows| :: var p := PadAll(TagYear(t, y).rows, cols)[k];
      "year" in p && p["year"] == Some(Int(y))
  {
    var x := TagYear(t, y);
    forall k | 0 <= k < |t.rows| ensures "year" in PadAll(x.rows, cols)[k] && PadAll(x.rows, cols)[k]["year"] == Some(Int(y)) {
      assert x.rows[k] == t.rows[k]["year" := Some(Int(y))];
    }
  }

  /** Rows tagged with years in `[lo, hi)` that never decrease. */
  predicate Ascending(rows: seq<Row>, lo: int, hi: int)
  {
    && (forall k | 0 <= k < |rows| :: TaggedIn(rows[k], lo, hi))
    && (forall j, k | 0 <= j < k < |rows| :: YearOf(rows[j]) <= YearOf(rows[k]))
  }

  /** Appending rows of year `y` to ascending rows of earlier years. */
  lemma AscendingAppend(a: seq<Row>, b: seq<Row>, lo: int, y: int)
    requires Ascending(a, lo, y) && lo <= y
    requires forall k | 0 <= k < |b| :: "year" in b[k] && b[k]["year"] == Some(Int(y))
    ensures Ascending(a + b, lo, y + 1)
  {
    var rows := a + b;
    forall k | 0 <= k < |rows| ensures TaggedIn(rows[k], lo, y + 1) {
      if k < |a| {
        assert rows[k] == a[k];
        assert TaggedIn(a[k], lo, y);
      } else {
        assert rows[k] == b[k - |a|];
      }
    }
    forall j, k | 0 <= j < k < |rows| ensures YearOf(rows[j]) <= YearOf(rows[k]) {
      if k < |a| {
        assert rows[j] == a[j] && rows[k] == a[k];
      } else if j < |a| {
        assert rows[j] == a[j] && rows[k] == b[k - |a|];
        assert TaggedIn(a[j], lo, y);
      } else {
        assert rows[j] == b[j - |a|] && rows[k] == b[k - |a|];
      }
    }
  }

  /** The concatenated rows carry years in `[start, end)`, never decreasing. */
  lemma {:induction false} CollectedYears(start: int, end: int, extract: int -> Option<Table>, cols: seq<string>)
    requires "year" in cols
    ensures Ascending(ConcatRows(Collected(start, end, extract), cols), start, end)
    decreases end - start
  {
    if end > start {
      CollectedYears(start, end - 1, extract, cols);
      CollectedStep(start, end, extract, cols);
      YearBlockTagged(extract, end - 1, cols);
      AscendingAppend(ConcatRows(Collected(start, end - 1, extract), cols), YearBlock(extract, end - 1, cols), start, end - 1);
    }
  }

  /** The rows a year adds are all tagged with that year. */
  lemma YearBlockTagged(extract: int -> Option<Table>, y: int, cols: seq<string>)
    requires "year" in cols
    ensures forall k | 0 <= k < |YearBlock(extract, y, cols)| ::
      "year" in YearBlock(extract, y, cols)[k] && YearBlock(extract, y, cols)[k]["year"] == Some(Int(y))
  {
    if extract(y).Some? {
      TaggedRows(extract(y).value, y, cols);
    }
  }

  /** Whether a row is tagged with year `y`. */
  function YearIs(y: int): Row -> bool
  {
    r => "year" in r && r["year"] == Some(Int(y))
  }

  lemma SelectNone(rows: seq<Row>, keep: Row -> bool)
    requires forall k | 0 <= k < |rows| :: !keep(rows[k])
    ensures Select(rows, keep) == []
  {
  }

  /** One more year appends that year's rows, if it gave a table. */
  lemma CollectedStep(start: int, end: int, extract: int -> Option<Table>, cols: seq<string>)
    requires start < end
    ensures ConcatRows(Collected(start, end, extract), cols) ==
      ConcatRows(Collected(start, end - 1, extract), cols) +
      YearBlock(extract, end - 1, cols)
  {
    var prior := Collected(start, end - 1, extract);
    var x := extract(end - 1);
    if x.Some? {
      var c := prior + [TagYear(x.value, end - 1)];
      assert c[..|c| - 1] == prior;
    } else {
      assert ConcatRows(prior, cols) + [] == ConcatRows(prior, cols);
    }
  }

  /** The rows of one year's table tagged `y`: all of them when it is year `y`,
      none otherwise. */
  lemma TaggedSelect(t: Table, year: int, cols: seq<string>, y: int)
    requires "year" in cols
    ensures Select(PadAll(TagYear(t, year).rows, cols), YearIs(y)) ==
      if y == year then PadAll(TagYear(t, year).rows, cols) else []
  {
    var rows := PadAll(TagYear(t, year).rows, cols);
    TaggedRows(t, year, cols);
    if y == year {
      SelectAll(rows, YearIs(y));
    } else {
      SelectNone(rows, YearIs(y));
    }
  }

  /** No row is tagged with a year the loop has not reached yet. */
  lemma CollectedBefore(start: int, end: int, extract: int -> Option<Table>, cols: seq<string>, y: int)
    requires "year" in cols && end <= y
    ensures Select(ConcatRows(Collected(start, end, extract), cols), YearIs(y)) == []
  {
    var rows := ConcatRows(Collected(start, end, extract), cols);
    CollectedYears(start, end, extract, cols);
    forall k | 0 <= k < |rows| ensures !YearIs(y)(rows[k]) {
      assert TaggedIn(rows[k], start, end);
    }
    SelectNone(rows, YearIs(y));
  }

  /** The rows year `y` adds to a concatenation under the columns `cols`. */
  function YearBlock(extract: int -> Option<Table>, y: int, cols: seq<string>): seq<Row>
  {
    if extract(y).Some? then PadAll(TagYear(extract(y).value, y).rows, cols) else []
  }

  /** A year's rows are not tagged with another year. */
  lemma YearGivesNone(extract: int -> Option<Table>, year: int, cols: seq<string>, y: int)
    requires "year" in cols && y != year
    ensures Select(YearBlock(extract, year, cols), YearIs(y)) == []
  {
    if extract(year).Some? {
      TaggedSelect(extract(year).value, year, cols, y);
    } else {
      SelectNone([], YearIs(y));
    }
  }

  /** In the rows gathered over `[start, end)`, the rows tagged `y` are exactly
      the rows year `y` added, in their order. */
  ghost predicate SelectsYear(start: int, end: int, extract: int -> Option<Table>, cols: seq<string>, y: int)
  {
    Select(ConcatRows(Collected(start, end, extract), cols), YearIs(y)) == YearBlock(extract, y, cols)
  }

  /** The rows tagged `y` are exactly the rows of year `y`'s table, in their order
      (none when that year gave `None`). */
  lemma {:induction false} CollectedYearRows(start: int, end: int, extract: int -> Option<Table>, cols: seq<string>, y: int)
    requires "year" in cols && start <= y < end
    ensures SelectsYear(start, end, extract, cols, y)
    decreases end - start
  {
    if y < end - 1 {
      CollectedYearRows(start, end - 1, extract, cols, y);
      CollectedYearRowsEarlier(start, end, extract, cols, y);
    } else {
      CollectedYearRowsLast(start, end, extract, cols);
    }
  }

  /** The last year visited: earlier years give no row tagged with it. */
  lemma CollectedYearRowsLast(start: int, end: int, extract: int -> Option<Table>, cols: seq<string>)
    requires "year" in cols && start < end
    ensures SelectsYear(start, end, extract, cols, end - 1)
  {
    var y := end - 1;
    var old_rows := ConcatRows(Collected(start, end - 1, extract), cols);
    var x := extract(y);
    var fresh_rows := YearBlock(extract, y, cols);
    CollectedStep(start, end, extract, cols);
    SelectAppend(old_rows, fresh_rows, YearIs(y));
    CollectedBefore(start, end - 1, extract, cols, y);
    if x.Some? {
      TaggedSelect(x.value, y, cols, y);
    } else {
      SelectNone(fresh_rows, YearIs(y));
    }
    assert [] + Select(fresh_rows, YearIs(y)) == Select(fresh_rows, YearIs(y));
  }

  /** Rows that fail the filter, added after the rows `a`, leave the selection alone. */
  lemma SelectExtend(whole: seq<Row>, a: seq<Row>, b: seq<Row>, keep: Row -> bool, e: seq<Row>)
    requires whole == a + b && Select(a, keep) == e && Select(b, keep) == []
    ensures Select(whole, keep) == e
  {
    SelectAppend(a, b, keep);
    assert Select(a, keep) + [] == Select(a, keep);
  }

  /** An earlier year: the last year's rows are not tagged with it, so the
      selection is the one made before that year was added. */
  lemma CollectedYearRowsEarlier(start: int, end: int, extract: int -> Option<Table>, cols: seq<string>, y: int)
    requires "year" in cols && start <= y < end - 1
    requires SelectsYear(start, end - 1, extract, cols, y)
    ensures SelectsYear(start, end, extract, cols, y)
  {
    CollectedStep(start, end, extract, cols);
    YearGivesNone(extract, end - 1, cols, y);
    CollectedSelectStep(start, end, extract, cols, y);
  }

  /** The step of `CollectedYearRowsEarlier` once its three facts are in hand. */
  lemma CollectedSelectStep(start: int, end: int, extract: int -> Option<Table>, cols: seq<string>, y: int)
    requires SelectsYear(start, end - 1, extract, cols, y)
    requires ConcatRows(Collected(start, end, extract), cols) ==
      ConcatRows(Collected(start, end - 1, extract), cols) + YearBlock(extract, end - 1, cols)
    requires Select(YearBlock(extract, end - 1, cols), YearIs(y)) == []
    ensures SelectsYear(start, end, extract, cols, y)
  {
    SelectExtend(ConcatRows(Collected(start, end, extract), cols), ConcatRows(Collected(start, end - 1, extract), cols),
      YearBlock(extract, end - 1, cols), YearIs(y), YearBlock(extract, y, cols));
  }

  /** What an aggregate holds: a `year` column and rows tagged with years in
      `[start, end)`, in ascending order. */
  lemma HistoricalTagged(start: int, end: int, extract: int -> Option<Table>)
    requires Concat(Collected(start, end, extract)).Some?
    ensures var r := Concat(Collected(start, end, extract)).value;
      "year" in r.columns && Ascending(r.rows, start, end)
  {
    var c := Collected(start, end, extract);
    CollectedHaveYear(start, end, extract);
    assert "year" in c[0].columns;
    CollectedYears(start, end, extract, UnionColumns(c));
  }

  /** The rows of an aggregate tagged `y` are exactly the rows of year `y`'s table,
      in their order (none when that year gave `None`). */
  lemma HistoricalYear(start: int, end: int, extract: int -> Option<Table>, y: int)
    requires Concat(Collected(start, end, extract)).Some?
    requires start <= y < end
    ensures var r := Concat(Collected(start, end, extract)).value;
      Select(r.rows, YearIs(y)) ==
        YearBlock(extract, y, r.columns)
  {
    var c := Collected(start, end, extract);
    CollectedHaveYear(start, end, extract);
    assert "year" in c[0].columns;
    CollectedYearRows(start, end, extract, UnionColumns(c), y);
  }

  // ---------------------------------------------------------------------------
  // Joins (lines 90-96)

  const RemoveSuffix := "_remove"

  /** `pd.merge(left, right, how='left', left_on, right_on, suffixes=('', '_remove'))`
      followed by dropping every column whose name contains `remove` (lines 91-92
      and 95-96). */
  function MergeDropRemove(left: Table, right: Table, lk: seq<string>, rk: seq<string>): (r: Option<Table>)
    ensures r.None? <==> MergeFails(left, right, lk, rk, "", RemoveSuffix)
    ensures r.Some? ==> forall c | c in r.value.columns :: !Contains(c, "remove")
  {
    match Merge(Left, left, right, lk, rk, "", RemoveSuffix)
    case None => None
    case Some(m) => Some(DropMatching(m, "remove"))
  }

  function JoinPlan(left: Table, right: Table, lk: seq<string>, rk: seq<string>): Plan
  {
    MakePlan(Left, left, right, lk, rk, "", RemoveSuffix)
  }

  /** The empty left suffix leaves every left name as it is. */
  lemma LeftNamesKept(left: Table, right: Table, lk: seq<string>, rk: seq<string>, p: Plan)
    requires p == JoinPlan(left, right, lk, rk)
    ensures p.lcols == left.columns && |p.lcols| <= |p.out|
    ensures forall i | 0 <= i < |p.lcols| :: p.out[i] == left.columns[i]
  {
    var ov := Overlap(left.columns, p.kept);
    forall i | 0 <= i < |p.lcols| ensures p.out[i] == left.columns[i] {
      assert left.columns[i] + "" == left.columns[i];
      assert p.out[i] == Suffixed(left.columns, ov, "")[i];
    }
  }

  /** A right-hand name is kept as it is, or suffixed with `_remove`. */
  lemma RightNames(left: Table, right: Table, lk: seq<string>, rk: seq<string>, p: Plan, j: int)
    requires p == JoinPlan(left, right, lk, rk) && 0 <= j < |p.kept|
    ensures |p.out| == |p.lcols| + |p.kept|
    ensures p.out[|p.lcols| + j] == p.kept[j] || Contains(p.out[|p.lcols| + j], "remove")
  {
    var ov := Overlap(left.columns, p.kept);
    assert p.out[|p.lcols| + j] == Suffixed(p.kept, ov, RemoveSuffix)[j];
    RemoveSuffixed(p.kept[j]);
  }

  /** A name suffixed with `_remove` contains `remove`. */
  lemma RemoveSuffixed(c: string)
    ensures Contains(c + RemoveSuffix, "remove")
  {
    assert c + RemoveSuffix == (c + "_") + "remove";
    ContainsEnd(c + "_", "remove");
  }

  lemma AllRightNames(left: Table, right: Table, lk: seq<string>, rk: seq<string>, p: Plan)
    requires p == JoinPlan(left, right, lk, rk)
    ensures |p.out| == |p.lcols| + |p.kept|
    ensures forall j | 0 <= j < |p.kept| :: p.out[|p.lcols| + j] == p.kept[j] || Contains(p.out[|p.lcols| + j], "remove")
  {
    assert |p.out| == |p.lcols| + |p.kept|;
    forall j | 0 <= j < |p.kept| ensures p.out[|p.lcols| + j] == p.kept[j] || Contains(p.out[|p.lcols| + j], "remove") {
      RightNames(left, right, lk, rk, p, j);
    }
  }

  /** A name of the joined table that is not a left name and has no `remove` in it
      is a right-hand name carried over as it is. */
  lemma RightOnlyName(lcols: seq<string>, kept: seq<string>, out: seq<string>, c: string) returns (j: int)
    requires |out| == |lcols| + |kept|
    requires forall i | 0 <= i < |lcols| :: out[i] == lcols[i]
    requires forall j | 0 <= j < |kept| :: out[|lcols| + j] == kept[j] || Contains(out[|lcols| + j], "remove")
    requires c in out && !Contains(c, "remove") && c !in lcols
    ensures 0 <= j < |kept| && kept[j] == c && out[|lcols| + j] == c
  {
    var idx :| 0 <= idx < |out| && out[idx] == c;
    if idx < |lcols| {
      assert false;
    }
    j := idx - |lcols|;
    assert out[|lcols| + j] == c;
  }

  /** The same for the names of a join plan. */
  lemma JoinRightName(left: Table, right: Table, lk: seq<string>, rk: seq<string>, p: Plan, c: string) returns (j: int)
    requires p == JoinPlan(left, right, lk, rk)
    requires c in p.out && !Contains(c, "remove") && c !in left.columns
    ensures 0 <= j < |p.kept| && p.kept[j] == c && |p.out| == |p.lcols| + |p.kept| && p.out[|p.lcols| + j] == c
  {
    LeftNamesKept(left, right, lk, rk, p);
    AllRightNames(left, right, lk, rk, p);
    j := RightOnlyName(p.lcols, p.kept, p.out, c);
  }

  /** Both joins, when the right-hand keys are unique: exactly one row per left
      row, in left order, and row `k` keeps left row `k`'s cells under every left
      name without `remove` (so a name on both sides keeps the left value). */
  lemma MergeDropRemoveLeft(left: Table, right: Table, lk: seq<string>, rk: seq<string>, k: int)
    requires MergeDropRemove(left, right, lk, rk).Some?
    requires UniqueKeys(right.rows, rk)
    requires 0 <= k < |left.rows|
    ensures var r := MergeDropRemove(left, right, lk, rk).value;
      && |r.rows| == |left.rows|
      && (forall c | c in left.columns && !Contains(c, "remove") :: c in r.columns && r.rows[k][c] == left.rows[k][c])
  {
    var p := JoinPlan(left, right, lk, rk);
    var mm := Merge(Left, left, right, lk, rk, "", RemoveSuffix).value;
    var r := DropMatching(mm, "remove");
    assert AllFit(left.rows, p.lcols);
    LeftJoinOneToOneCells(p, left.rows, k);
    LeftNamesKept(left, right, lk, rk, p);
    forall c | c in left.columns && !Contains(c, "remove") ensures c in r.columns && r.rows[k][c] == left.rows[k][c] {
      var i :| 0 <= i < |left.columns| && left.columns[i] == c;
      assert p.out[i] == c;
    }
  }

  /** Both joins, when the right-hand keys are unique: a column of row `k` that is
      not a left column comes from the right and holds the matching right row's
      cell, or is null when no right row matches. */
  lemma MergeDropRemoveRight(left: Table, right: Table, lk: seq<string>, rk: seq<string>, k: int, c: string)
    requires MergeDropRemove(left, right, lk, rk).Some?
    requires UniqueKeys(right.rows, rk)
    requires 0 <= k < |left.rows|
    requires c in MergeDropRemove(left, right, lk, rk).value.columns && c !in left.columns
    ensures var r := MergeDropRemove(left, right, lk, rk).value;
      var m := MatchRows(right.rows, rk, left.rows[k], lk);
      && |r.rows| == |left.rows|
      && c in right.columns
      && (m == [] ==> r.rows[k][c] == None)
      && (m != [] ==> c in m[0] && r.rows[k][c] == m[0][c])
  {
    var p := JoinPlan(left, right, lk, rk);
    var mm := Merge(Left, left, right, lk, rk, "", RemoveSuffix).value;
    assert c in mm.columns;
    assert AllFit(left.rows, p.lcols);
    var j := JoinRightName(left, right, lk, rk, p, c);
    LeftJoinOneToOneCells(p, left.rows, k);
  }

  /** Both joins keep every left row: never fewer rows than the left table. */
  lemma MergeDropRemoveKeepsRows(left: Table, right: Table, lk: seq<string>, rk: seq<string>)
    requires MergeDropRemove(left, right, lk, rk).Some?
    ensures |MergeDropRemove(left, right, lk, rk).value.rows| >= |left.rows|
  {
    var p := JoinPlan(left, right, lk, rk);
    assert AllFit(left.rows, p.lcols);
    LeftJoinKeepsRows(p, left.rows);
  }

  /** Both joins, whatever the right-hand keys: the output is made of one block of
      rows per left row, in left order. Left row `k`'s block starts at output row
      `LeftOffset(k)` and has one row per matching right row, or a single row when
      none matches (the definition of `LeftOffset`); the blocks fill the output. */
  lemma JoinLayout(left: Table, right: Table, lk: seq<string>, rk: seq<string>, k: int)
    requires MergeDropRemove(left, right, lk, rk).Some?
    requires 0 <= k < |left.rows|
    ensures |MergeDropRemove(left, right, lk, rk).value.rows| == LeftOffset(right.rows, rk, left.rows, lk, |left.rows|)
    ensures LeftOffset(right.rows, rk, left.rows, lk, k) < LeftOffset(right.rows, rk, left.rows, lk, k + 1)
    ensures LeftOffset(right.rows, rk, left.rows, lk, k + 1) <= |MergeDropRemove(left, right, lk, rk).value.rows|
  {
    var p := JoinPlan(left, right, lk, rk);
    JoinIsPlan(left, right, lk, rk, p);
    LeftJoinCounts(p, left.rows, k);
  }

  /** Before its `remove` columns are dropped, the join is the left join of its plan,
      with as many rows. */
  lemma JoinIsPlan(left: Table, right: Table, lk: seq<string>, rk: seq<string>, p: Plan)
    requires MergeDropRemove(left, right, lk, rk).Some? && p == JoinPlan(left, right, lk, rk)
    ensures ValidPlan(p) && p.how == Left && AllFit(left.rows, p.lcols)
    ensures p.right == right && p.rk == rk && p.lk == lk && p.lcols == left.columns
    ensures |MergeDropRemove(left, right, lk, rk).value.rows| == |MergeRows(p, left.rows)|
  {
    var mm := Merge(Left, left, right, lk, rk, "", RemoveSuffix).value;
    assert mm.rows == MergeRows(p, left.rows);
  }

  /** Row `j` of left row `k`'s block, output row `n` = `LeftOffset(k) + j`, keeps
      left row `k`'s cells under every left name without `remove`. */
  lemma MergeDropRemoveBlockLeft(left: Table, right: Table, lk: seq<string>, rk: seq<string>, k: int, j: int, n: int, c: string)
    requires MergeDropRemove(left, right, lk, rk).Some?
    requires 0 <= k < |left.rows|
    requires 0 <= j < BlockSize(right.rows, rk, left.rows[k], lk)
    requires n == LeftOffset(right.rows, rk, left.rows, lk, k) + j
    requires c in left.columns && !Contains(c, "remove")
    ensures n < |MergeDropRemove(left, right, lk, rk).value.rows|
    ensures c in MergeDropRemove(left, right, lk, rk).value.columns
    ensures MergeDropRemove(left, right, lk, rk).value.rows[n][c] == left.rows[k][c]
  {
    var p := JoinPlan(left, right, lk, rk);
    JoinIsPlan(left, right, lk, rk, p);
    BlockHasSize(p, left.rows[k]);
    LeftNamesKept(left, right, lk, rk, p);
    var i :| 0 <= i < |left.columns| && left.columns[i] == c;
    LeftJoinLeftCellAt(p, left.rows, k, j, i, n);
    DroppedCell(left, right, lk, rk, p, n, c);
  }

  /** Row `j` of left row `k`'s block, output row `n` = `LeftOffset(k) + j`, carries
      under every right-hand name it keeps the cell of the `j`-th matching right row. */
  lemma MergeDropRemoveBlockRight(left: Table, right: Table, lk: seq<string>, rk: seq<string>, k: int, j: int, n: int, c: string)
    requires MergeDropRemove(left, right, lk, rk).Some?
    requires 0 <= k < |left.rows|
    requires 0 <= j < |MatchRows(right.rows, rk, left.rows[k], lk)|
    requires n == LeftOffset(right.rows, rk, left.rows, lk, k) + j
    requires c in MergeDropRemove(left, right, lk, rk).value.columns && c !in left.columns
    ensures c in right.columns
    ensures n < |MergeDropRemove(left, right, lk, rk).value.rows|
    ensures c in MatchRows(right.rows, rk, left.rows[k], lk)[j]
    ensures MergeDropRemove(left, right, lk, rk).value.rows[n][c] == MatchRows(right.rows, rk, left.rows[k], lk)[j][c]
  {
    var p := JoinPlan(left, right, lk, rk);
    JoinIsPlan(left, right, lk, rk, p);
    var i := JoinRightName(left, right, lk, rk, p, c);
    LeftJoinRightCellAt(p, left.rows, k, j, i, n);
    DroppedCell(left, right, lk, rk, p, n, c);
  }

  /** The single row of a left row that matches nothing has every right-hand name
      it keeps null. */
  lemma MergeDropRemoveUnmatched(left: Table, right: Table, lk: seq<string>, rk: seq<string>, k: int, n: int, c: string)
    requires MergeDropRemove(left, right, lk, rk).Some?
    requires 0 <= k < |left.rows|
    requires MatchRows(right.rows, rk, left.rows[k], lk) == []
    requires n == LeftOffset(right.rows, rk, left.rows, lk, k)
    requires c in MergeDropRemove(left, right, lk, rk).value.columns && c !in left.columns
    ensures c in right.columns
    ensures n < |MergeDropRemove(left, right, lk, rk).value.rows|
    ensures MergeDropRemove(left, right, lk, rk).value.rows[n][c] == None
  {
    var p := JoinPlan(left, right, lk, rk);
    JoinIsPlan(left, right, lk, rk, p);
    var i := JoinRightName(left, right, lk, rk, p, c);
    LeftJoinUnmatchedAt(p, left.rows, k, |p.lcols| + i, n);
    DroppedCell(left, right, lk, rk, p, n, c);
  }

  /** Dropping the `remove` columns leaves the cells of the columns it keeps. */
  lemma DroppedCell(left: Table, right: Table, lk: seq<string>, rk: seq<string>, p: Plan, n: int, c: string)
    requires MergeDropRemove(left, right, lk, rk).Some? && p == JoinPlan(left, right, lk, rk)
    requires AllFit(left.rows, p.lcols) && 0 <= n < |MergeRows(p, left.rows)|
    requires c in MergeDropRemove(left, right, lk, rk).value.columns
    ensures n < |MergeDropRemove(left, right, lk, rk).value.rows|
    ensures c in MergeRows(p, left.rows)[n]
    ensures MergeDropRemove(left, right, lk, rk).value.rows[n][c] == MergeRows(p, left.rows)[n][c]
  {
    var mm := Merge(Left, left, right, lk, rk, "", RemoveSuffix).value;
    assert mm.rows == MergeRows(p, left.rows);
    var r := DropMatching(mm, "remove");
    assert MergeDropRemove(left, right, lk, rk).value == r;
    assert c in mm.columns && Fits(mm.rows[n], mm.columns);
  }

  const AdvancedKeys := ["Player", "year", "Tm"]

  /** Line 91-92: ROY voting joined with advanced stats on player, year and team. */
  function JoinAdvanced(roy: Table, advanced: Table): Option<Table>
  {
    MergeDropRemove(roy, advanced, AdvancedKeys, AdvancedKeys)
  }

  /** Lines 95-96: joined with the standings on team abbreviation and year. */
  function JoinStandings(t: Table, standings: Table): Option<Table>
  {
    MergeDropRemove(t, standings, ["Tm", "year"], ["TEAM_ABBREVIATION", "year"])
  }

  // ---------------------------------------------------------------------------
  // The master table (lines 98-113)

  const ToDrop := ["Age", "First", "Pts Won", "Pts Max", "Rk", "TEAM_NAME", "Conference",
                   "TEAM_ABBREVIATION", "GB", "PS/G", "PA/G", "SRS"]

  /** Both joins, then `drop(columns=to_drop)`, which raises `KeyError` when one of
      the columns is absent. */
  function MasterTable(roy: Table, advanced: Table, standings: Table): Option<Table>
  {
    match JoinAdvanced(roy, advanced)
    case None => None
    case Some(a) =>
      match JoinStandings(a, standings)
      case None => None
      case Some(b) => DropColumns(b, ToDrop)
  }

  /** The master table exists exactly when both joins succeed and the second one
      has all twelve columns to drop; it then has none of them, no name containing
      `remove`, and every other column of the joined table with its cells. */
  lemma MasterTableColumns(roy: Table, advanced: Table, standings: Table)
    ensures var a := JoinAdvanced(roy, advanced);
      var b := if a.Some? then JoinStandings(a.value, standings) else None;
      MasterTable(roy, advanced, standings).None? <==>
        a.None? || b.None? || exists c :: c in ToDrop && c !in b.value.columns
    ensures var m := MasterTable(roy, advanced, standings);
      m.Some? ==>
        var b := JoinStandings(JoinAdvanced(roy, advanced).value, standings).value;
        && (forall c | c in ToDrop :: c !in m.value.columns)
        && (forall c | c in m.value.columns :: !Contains(c, "remove"))
        && (forall c | c in b.columns && c !in ToDrop :: c in m.value.columns)
        && |m.value.rows| == |b.rows|
        && (forall k, c | 0 <= k < |b.rows| && c in m.value.columns :: m.value.rows[k][c] == b.rows[k][c])
  {
    var m := MasterTable(roy, advanced, standings);
    if m.Some? {
      var b := JoinStandings(JoinAdvanced(roy, advanced).value, standings).value;
      assert m.value == DropSet(b, Names(ToDrop));
      assert Names(m.value.columns) == Names(b.columns) - Names(ToDrop);
    }
  }

  // ---------------------------------------------------------------------------
  // Filling nulls (lines 116-120)

  /** The fill values: `round(mean)` of `W` and of `L`, and the mean of `W/L%`.
      Floating-point averaging is not modelled; the script computes them from the
      table. */
  datatype Means = Means(w: Value, l: Value, wl: Value)

  /** Every cell of `col` is null (the mean is NaN). */
  predicate AllNull(t: Table, col: string)
  {
    forall k | 0 <= k < |t.rows| :: col !in t.rows[k] || t.rows[k][col].None?
  }

  /** `fillna` applied to the columns one after the other; a missing column raises
      `KeyError`. */
  function FillAll(t: Table, fills: seq<(string, Cell)>): Option<Table>
    decreases |fills|
  {
    if fills == [] then Some(t)
    else
      match FillNa(t, fills[0].0, fills[0].1)
      case None => None
      case Some(a) => FillAll(a, fills[1..])
  }

  /** The cell a run of fills leaves in column `c` when it started as `x`. */
  function Filled(x: Cell, c: string, fills: seq<(string, Cell)>): Cell
    decreases |fills|
  {
    if fills == [] then x
    else Filled(if fills[0].0 == c && x.None? then fills[0].1 else x, c, fills[1..])
  }

  /** The fills fail exactly when one of their columns is missing; otherwise the
      columns and the row count stay, and every cell is the one `Filled` gives. */
  lemma {:induction false} FillAllCells(t: Table, fills: seq<(string, Cell)>)
    ensures FillAll(t, fills).None? <==> exists i :: 0 <= i < |fills| && fills[i].0 !in t.columns
    ensures FillAll(t, fills).Some? ==>
      var r := FillAll(t, fills).value;
      && r.columns == t.columns && |r.rows| == |t.rows|
      && forall k, c | 0 <= k < |t.rows| && c in t.columns :: r.rows[k][c] == Filled(t.rows[k][c], c, fills)
    decreases |fills|
  {
    if fills != [] {
      var a := FillNa(t, fills[0].0, fills[0].1);
      if a.Some? {
        FillAllCells(a.value, fills[1..]);
        assert forall i | 0 <= i < |fills[1..]| :: fills[1..][i] == fills[i + 1];
        if FillAll(t, fills).Some? {
          var r := FillAll(t, fills).value;
          forall k, c | 0 <= k < |t.rows| && c in t.columns ensures r.rows[k][c] == Filled(t.rows[k][c], c, fills) {
            assert a.value.rows[k][c] == if fills[0].0 == c && t.rows[k][c].None? then fills[0].1 else t.rows[k][c];
          }
        }
      }
    }
  }

  /** Lines 116-120: `W` and `L` filled with their rounded means, `W/L%` with its
      mean, `3P%` and `3PAr` with 0. `round` of the NaN mean of an all-null `W` or
      `L` raises `ValueError`; an all-null `W/L%` is filled with NaN, which changes
      nothing. Each fill leaves the other columns as they were, so every mean can be
      read off the table the fills start from. */
  function FillMaster(t: Table, means: Means): Option<Table>
  {
    if "W" in t.columns && AllNull(t, "W") then None
    else if "L" in t.columns && AllNull(t, "L") then None
    else FillAll(t, FillPlan(t, means))
  }

  function FillPlan(t: Table, means: Means): seq<(string, Cell)>
  {
    [("W", Some(means.w)), ("L", Some(means.l)),
     ("W/L%", if AllNull(t, "W/L%") then None else Some(means.wl)),
     ("3P%", Some(Int(0))), ("3PAr", Some(Int(0)))]
  }

  const FillColumns := ["W", "L", "W/L%", "3P%", "3PAr"]

  predicate HasFillColumns(cols: seq<string>)
  {
    "W" in cols && "L" in cols && "W/L%" in cols && "3P%" in cols && "3PAr" in cols
  }

  /** A run of fills that never names `c` leaves its cell as it is. */
  lemma {:induction false} FilledAbsent(x: Cell, c: string, fills: seq<(string, Cell)>)
    requires forall i | 0 <= i < |fills| :: fills[i].0 != c
    ensures Filled(x, c, fills) == x
    decreases |fills|
  {
    if fills != [] {
      assert fills[0].0 != c;
      assert forall i | 0 <= i < |fills[1..]| :: fills[1..][i] == fills[i + 1];
      FilledAbsent(x, c, fills[1..]);
    }
  }

  /** A run of fills that names `c` once, at `i`, fills a null cell with that
      value and leaves any other cell as it is. */
  lemma {:induction false} FilledOnce(x: Cell, c: string, fills: seq<(string, Cell)>, i: int)
    requires 0 <= i < |fills| && fills[i].0 == c
    requires forall j | 0 <= j < |fills| && j != i :: fills[j].0 != c
    ensures Filled(x, c, fills) == if x.None? then fills[i].1 else x
    decreases |fills|
  {
    assert forall j | 0 <= j < |fills[1..]| :: fills[1..][j] == fills[j + 1];
    if i == 0 {
      FilledAbsent(if x.None? then fills[0].1 else x, c, fills[1..]);
    } else {
      assert fills[0].0 != c;
      FilledOnce(x, c, fills[1..], i - 1);
    }
  }

  lemma FillPlanNames(t: Table, means: Means)
    ensures var f := FillPlan(t, means);
      && |f| == 5
      && f[0] == ("W", Some(means.w)) && f[1] == ("L", Some(means.l))
      && f[2] == ("W/L%", if AllNull(t, "W/L%") then None else Some(means.wl))
      && f[3] == ("3P%", Some(Int(0))) && f[4] == ("3PAr", Some(Int(0)))
  {
  }

  /** The five fills name five different columns. */
  lemma FillPlanOnce(t: Table, means: Means, i: int)
    requires 0 <= i < 5
    ensures forall j | 0 <= j < |FillPlan(t, means)| && j != i :: FillPlan(t, means)[j].0 != FillPlan(t, means)[i].0
  {
    FillPlanNames(t, means);
  }

  /** The fill fails exactly when one of the five columns is missing or `W` or `L`
      has no value at all. */
  lemma FillMasterFails(t: Table, means: Means)
    ensures FillMaster(t, means).None? <==>
      !HasFillColumns(t.columns) || AllNull(t, "W") || AllNull(t, "L")
  {
    var fills := FillPlan(t, means);
    FillPlanNames(t, means);
    FillAllCells(t, fills);
    if !HasFillColumns(t.columns) {
      var i := if "W" !in t.columns then 0 else if "L" !in t.columns then 1
        else if "W/L%" !in t.columns then 2 else if "3P%" !in t.columns then 3 else 4;
      assert fills[i].0 !in t.columns;
    } else {
      forall i | 0 <= i < |fills| ensures fills[i].0 in t.columns {
      }
    }
  }

  /** Cell `k` of the `i`-th filled column: filled when null, else unchanged. */
  lemma FillMasterColumn(t: Table, means: Means, k: int, i: int)
    requires FillMaster(t, means).Some?
    requires 0 <= k < |t.rows| && 0 <= i < 5
    ensures HasFillColumns(t.columns)
    ensures var r := FillMaster(t, means).value; var f := FillPlan(t, means)[i];
      && r.columns == t.columns && |r.rows| == |t.rows| && f.0 in t.columns
      && r.rows[k][f.0] == if t.rows[k][f.0].None? then f.1 else t.rows[k][f.0]
  {
    var fills := FillPlan(t, means);
    FillPlanNames(t, means);
    FillMasterFails(t, means);
    FillAllCells(t, fills);
    FillPlanOnce(t, means, i);
    FilledOnce(t.rows[k][fills[i].0], fills[i].0, fills, i);
  }

  lemma FillPlanAvoids(t: Table, means: Means, c: string)
    requires c !in FillColumns
    ensures forall i | 0 <= i < |FillPlan(t, means)| :: FillPlan(t, means)[i].0 != c
  {
    assert c != "W" && c != "L" && c != "W/L%" && c != "3P%" && c != "3PAr" by {
      assert FillColumns == ["W", "L", "W/L%", "3P%", "3PAr"];
    }
    FillPlanNames(t, means);
  }

  /** Cells of row `k` outside the five filled columns are untouched. */
  lemma FillMasterOthers(t: Table, means: Means, k: int)
    requires FillMaster(t, means).Some?
    requires 0 <= k < |t.rows|
    ensures var r := FillMaster(t, means).value;
      && r.columns == t.columns && |r.rows| == |t.rows|
      && forall c | c in t.columns && c !in FillColumns :: r.rows[k][c] == t.rows[k][c]
  {
    var fills := FillPlan(t, means);
    FillAllCells(t, fills);
    var row := t.rows[k];
    forall c | c in t.columns && c !in FillColumns ensures Filled(row[c], c, fills) == row[c] {
      FillPlanAvoids(t, means, c);
      FilledAbsent(row[c], c, fills);
    }
  }

  /** What the fill does to row `k`: nulls of `W` and `L` become the rounded means,
      nulls of `3P%` and `3PAr` become 0, nulls of `W/L%` its mean unless the whole
      column is null; every non-null cell, and every other column, is unchanged. */
  lemma FillMasterCells(t: Table, means: Means, k: int)
    requires FillMaster(t, means).Some?
    requires 0 <= k < |t.rows|
    ensures HasFillColumns(t.columns)
    ensures var r := FillMaster(t, means).value; var row := t.rows[k];
      && r.columns == t.columns && |r.rows| == |t.rows|
      && (forall c | c in t.columns && c !in FillColumns :: r.rows[k][c] == row[c])
      && r.rows[k]["W"] == (if row["W"].None? then Some(means.w) else row["W"])
      && r.rows[k]["L"] == (if row["L"].None? then Some(means.l) else row["L"])
      && r.rows[k]["W/L%"] == (if row["W/L%"].None? && !AllNull(t, "W/L%") then Some(means.wl) else row["W/L%"])
      && r.rows[k]["3P%"] == (if row["3P%"].None? then Some(Int(0)) else row["3P%"])
      && r.rows[k]["3PAr"] == (if row["3PAr"].None? then Some(Int(0)) else row["3PAr"])
  {
    FillPlanNames(t, means);
    FillMasterOthers(t, means, k);
    FillMasterColumn(t, means, k, 0);
    FillMasterColumn(t, means, k, 1);
    FillMasterColumn(t, means, k, 2);
    FillMasterColumn(t, means, k, 3);
    FillMasterColumn(t, means, k, 4);
  }

  /** After the fill `W`, `L`, `3P%` and `3PAr` hold no null, and `W/L%` holds one
      only where the whole column was null. */
  lemma FillMasterNoNulls(t: Table, means: Means)
    requires FillMaster(t, means).Some?
    ensures FillMaster(t, means).value.columns == t.columns
    ensures HasFillColumns(t.columns)
    ensures var r := FillMaster(t, means).value;
      forall k | 0 <= k < |r.rows| ::
        && r.rows[k]["W"].Some? && r.rows[k]["L"].Some?
        && r.rows[k]["3P%"].Some? && r.rows[k]["3PAr"].Some?
        && (r.rows[k]["W/L%"].None? ==> AllNull(t, "W/L%"))
  {
    FillMasterShape(t, means);
    var r := FillMaster(t, means).value;
    forall k | 0 <= k < |r.rows| ensures
      && r.rows[k]["W"].Some? && r.rows[k]["L"].Some?
      && r.rows[k]["3P%"].Some? && r.rows[k]["3PAr"].Some?
      && (r.rows[k]["W/L%"].None? ==> AllNull(t, "W/L%"))
    {
      FillMasterCells(t, means, k);
    }
  }

  /** A fill that succeeds keeps the names and the number of rows, and the table had
      every fill column. */
  lemma FillMasterShape(t: Table, means: Means)
    requires FillMaster(t, means).Some?
    ensures HasFillColumns(t.columns)
    ensures FillMaster(t, means).value.columns == t.columns
    ensures |FillMaster(t, means).value.rows| == |t.rows|
  {
    FillMasterFails(t, means);
    FillAllCells(t, FillPlan(t, means));
  }

  /** Lines 90-120 in order: the two joins, the drop and the fill. */
  function CleanMaster(roy: Table, advanced: Table, standings: Table, means: Means): Option<Table>
  {
    match MasterTable(roy, advanced, standings)
    case None => None
    case Some(m) => FillMaster(m, means)
  }

  /** The cleaned table has none of the dropped columns, no name containing
      `remove`, and no null in `W`, `L`, `3P%` or `3PAr`. */
  lemma CleanMasterShape(roy: Table, advanced: Table, standings: Table, means: Means)
    requires CleanMaster(roy, advanced, standings, means).Some?
    ensures var r := CleanMaster(roy, advanced, standings, means).value;
      && (forall c | c in ToDrop :: c !in r.columns)
      && (forall c | c in r.columns :: !Contains(c, "remove"))
      && HasFillColumns(r.columns)
      && (forall k | 0 <= k < |r.rows| ::
            r.rows[k]["W"].Some? && r.rows[k]["L"].Some? && r.rows[k]["3P%"].Some? && r.rows[k]["3PAr"].Some?)
  {
    var m := MasterTable(roy, advanced, standings).value;
    MasterTableColumns(roy, advanced, standings);
    FillMasterNoNulls(m, means);
  }

}
