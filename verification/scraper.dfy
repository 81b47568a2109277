/** The table normalisation done by the four `extract_*` functions of
    `webscraping/bref_scraper.py`. Fetching the page, locating the table and parsing
    it are not modelled: what they produce is the input, as a `Page`. */
module Scraper {
  import opened Wrappers
  import opened Strings
  import opened Frames
  import opened Merging

  /** The outcome of requesting a page and locating what is wanted on it:
      `raise_for_status` raised, some other exception was raised (connection,
      parsing), or the page loaded and `content` is what was found on it. */
  datatype Page<T> = HttpError | Failed | Loaded(content: T)

  /** A cell holding text. */
  predicate IsText(c: Cell)
  {
    c.Some? && c.value.Str?
  }

  /** pandas gives a parsed column the object (text) dtype, which `.str` requires,
      when the column has no rows or holds some text; otherwise the column is numeric
      and `.str` raises `AttributeError`. */
  predicate TextColumn(t: Table, col: string)
    requires col in t.columns
  {
    |t.rows| == 0 || exists k | 0 <= k < |t.rows| :: IsText(t.rows[k][col])
  }

  /** `.str` then infers the type of the values it is given, skipping NaN: it accepts
      them when some value is text or every value is missing, and raises
      `AttributeError` when the present values are all numeric. */
  predicate TextValues(t: Table, col: string)
    requires col in t.columns
  {
    || (exists k | 0 <= k < |t.rows| :: IsText(t.rows[k][col]))
    || (forall k | 0 <= k < |t.rows| :: t.rows[k][col].None?)
  }

  /** Every cell of `col` holds text. `~df[col].str.contains(...)` raises unless this
      holds: a missing or numeric cell yields NaN, and NaN cannot be inverted. */
  predicate AllText(t: Table, col: string)
    requires col in t.columns
  {
    forall k | 0 <= k < |t.rows| :: IsText(t.rows[k][col])
  }

  /** `.str.replace('*', '', regex=False)` on one cell: text loses every `*`; a
      missing or non-text cell becomes NaN. */
  function StripStar(c: Cell): (r: Cell)
    ensures IsText(c) <==> IsText(r)
    ensures IsText(r) ==> '*' !in r.value.s
    ensures IsText(c) && '*' !in c.value.s ==> r == c
    ensures IsText(c) ==> r == Some(Str(RemoveChar(c.value.s, '*')))
    ensures !IsText(c) ==> r.None?
  {
    if IsText(c) then Some(Str(RemoveChar(c.value.s, '*'))) else None
  }

  // ---------------------------------------------------------------------------
  // Row tests used by the filters

  /** `df['Rk'].notna()` */
  predicate RankPresent(r: Row)
  {
    "Rk" in r && r["Rk"].Some?
  }

  /** `~df['Rk'].str.contains('Rk')` on a row whose rank is text: not a repeated
      header row. */
  predicate NotHeaderRow(r: Row)
  {
    "Rk" in r && IsText(r["Rk"]) && !Contains(r["Rk"].value.s, "Rk")
  }

  // ---------------------------------------------------------------------------
  // Rookies: lines 25-33

  /** A name after the renames `rs`, applied one after the other. */
  function RenameMany(c: string, rs: seq<(string, string)>): string
    decreases rs
  {
    if rs == [] then c else RenameMany(RenameName(c, rs[0].0, rs[0].1), rs[1..])
  }

  /** The renames `rs` applied one after the other; a clash of names at any step
      fails. */
  function RenameAll(t: Table, rs: seq<(string, string)>): (r: Option<Table>)
    ensures r.Some? ==> |r.value.columns| == |t.columns| && |r.value.rows| == |t.rows|
    ensures r.Some? ==> forall i | 0 <= i < |t.columns| :: r.value.columns[i] == RenameMany(t.columns[i], rs)
    ensures r.Some? ==> forall k, c | 0 <= k < |t.rows| && c in t.columns ::
      RenameMany(c, rs) in r.value.columns && r.value.rows[k][RenameMany(c, rs)] == t.rows[k][c]
    decreases rs
  {
    if rs == [] then Some(t)
    else
      match RenameColumn(t, rs[0].0, rs[0].1)
      case None => None
      case Some(t1) => RenameAll(t1, rs[1..])
  }

  /** No name occurs in two of the renames `rs`. */
  predicate Disjoint(rs: seq<(string, string)>)
  {
    forall i, j | 0 <= i < j < |rs| ::
      rs[i].0 != rs[j].0 && rs[i].0 != rs[j].1 && rs[i].1 != rs[j].0 && rs[i].1 != rs[j].1
  }

  /** The rename `rs[j]` clashes with the columns `cols`: its source and its distinct
      target are both present. */
  predicate Clashes(rs: seq<(string, string)>, j: int, cols: seq<string>)
    requires 0 <= j < |rs|
  {
    rs[j].0 in cols && rs[j].1 in cols && rs[j].0 != rs[j].1
  }

  lemma DisjointTail(rs: seq<(string, string)>)
    requires rs != [] && Disjoint(rs)
    ensures Disjoint(rs[1..])
  {
    var rest := rs[1..];
    forall i, j | 0 <= i < j < |rest| ensures
      rest[i].0 != rest[j].0 && rest[i].0 != rest[j].1 && rest[i].1 != rest[j].0 && rest[i].1 != rest[j].1
    {
      assert rest[i] == rs[i + 1] && rest[j] == rs[j + 1];
    }
  }

  /** The first rename leaves the later renames' names present or absent as before. */
  lemma ClashAfterFirst(t: Table, rs: seq<(string, string)>, t1: Table, j: int)
    requires rs != [] && Disjoint(rs) && RenameColumn(t, rs[0].0, rs[0].1) == Some(t1)
    requires 0 <= j < |rs| - 1
    ensures Clashes(rs, j + 1, t.columns) <==> Clashes(rs[1..], j, t1.columns)
  {
    assert rs[1..][j] == rs[j + 1];
    assert rs[j + 1].0 in t1.columns <==> rs[j + 1].0 in t.columns;
    assert rs[j + 1].1 in t1.columns <==> rs[j + 1].1 in t.columns;
  }

  /** A clash of one of disjoint renames makes the renames fail. */
  lemma {:induction false} ClashFails(t: Table, rs: seq<(string, string)>, j: int)
    requires Disjoint(rs) && 0 <= j < |rs| && Clashes(rs, j, t.columns)
    ensures RenameAll(t, rs).None?
    decreases rs
  {
    match RenameColumn(t, rs[0].0, rs[0].1)
    case None =>
    case Some(t1) =>
      assert j != 0;
      DisjointTail(rs);
      ClashAfterFirst(t, rs, t1, j - 1);
      ClashFails(t1, rs[1..], j - 1);
      assert RenameAll(t, rs) == RenameAll(t1, rs[1..]);
  }

  /** Renames fail only through a clash. */
  lemma {:induction false} FailsByClash(t: Table, rs: seq<(string, string)>) returns (j: int)
    requires Disjoint(rs) && RenameAll(t, rs).None?
    ensures 0 <= j < |rs| && Clashes(rs, j, t.columns)
    decreases rs
  {
    match RenameColumn(t, rs[0].0, rs[0].1)
    case None =>
      j := 0;
    case Some(t1) =>
      DisjointTail(rs);
      var i := FailsByClash(t1, rs[1..]);
      ClashAfterFirst(t, rs, t1, i);
      j := i + 1;
  }

  /** For disjoint renames, doing them one at a time fails exactly when one of them
      clashes with the original columns, as pandas' simultaneous `rename` would. */
  lemma RenameAllFails(t: Table, rs: seq<(string, string)>)
    requires Disjoint(rs)
    ensures RenameAll(t, rs).None? <==> exists j | 0 <= j < |rs| :: Clashes(rs, j, t.columns)
  {
    if RenameAll(t, rs).None? {
      var j := FailsByClash(t, rs);
    }
    if exists j | 0 <= j < |rs| :: Clashes(rs, j, t.columns) {
      var j :| 0 <= j < |rs| && Clashes(rs, j, t.columns);
      ClashFails(t, rs, j);
    }
  }

  /** The per-game columns, which pandas names with a `.1` suffix, and their new
      names (lines 27-28). */
  const RookieRenames: seq<(string, string)> :=
    [("MP.1", "MP/G"), ("PTS.1", "PTS/G"), ("TRB.1", "TRB/G"), ("AST.1", "AST/G")]

  /** The name a rookies column has after the rename. */
  function PerGameName(c: string): string
  {
    if c == "MP.1" then "MP/G"
    else if c == "PTS.1" then "PTS/G"
    else if c == "TRB.1" then "TRB/G"
    else if c == "AST.1" then "AST/G"
    else c
  }

  lemma PerGameNames(c: string)
    ensures RenameMany(c, RookieRenames) == PerGameName(c)
  {
    var rs := RookieRenames;
    assert rs[1..] == [("PTS.1", "PTS/G"), ("TRB.1", "TRB/G"), ("AST.1", "AST/G")];
    assert rs[1..][1..] == [("TRB.1", "TRB/G"), ("AST.1", "AST/G")];
    assert rs[1..][1..][1..] == [("AST.1", "AST/G")];
    assert rs[1..][1..][1..][1..] == [];
  }

  /** The rename of lines 27-28 fails exactly when the simultaneous rename
      clashes. */
  lemma RookiesRenameFails(t: Table)
    ensures RenameAll(t, RookieRenames).None? <==> RookieRenameClash(t)
  {
    var rs := RookieRenames;
    assert Disjoint(rs);
    RenameAllFails(t, rs);
    if RookieRenameClash(t) {
      if "MP.1" in t.columns && "MP/G" in t.columns { assert Clashes(rs, 0, t.columns); }
      else if "PTS.1" in t.columns && "PTS/G" in t.columns { assert Clashes(rs, 1, t.columns); }
      else if "TRB.1" in t.columns && "TRB/G" in t.columns { assert Clashes(rs, 2, t.columns); }
      else { assert Clashes(rs, 3, t.columns); }
    } else {
      forall j | 0 <= j < |rs| ensures !Clashes(rs, j, t.columns) {
        assert j == 0 || j == 1 || j == 2 || j == 3;
      }
    }
  }

  /** Otherwise the rename moves exactly `MP.1`, `PTS.1`, `TRB.1` and `AST.1` to
      their per-game names: every other column keeps its name and position. */
  lemma RookiesRenameColumns(t: Table, i: int)
    requires RenameAll(t, RookieRenames).Some? && 0 <= i < |t.columns|
    ensures var r := RenameAll(t, RookieRenames).value;
      |r.columns| == |t.columns| && r.columns[i] == PerGameName(t.columns[i])
  {
    PerGameNames(t.columns[i]);
  }

  /** ... and every cell keeps its value, under the column's new name. */
  lemma RookiesRenameCells(t: Table, k: int, c: string)
    requires RenameAll(t, RookieRenames).Some? && 0 <= k < |t.rows| && c in t.columns
    ensures var r := RenameAll(t, RookieRenames).value;
      |r.rows| == |t.rows| && PerGameName(c) in r.columns && r.rows[k][PerGameName(c)] == t.rows[k][c]
  {
    PerGameNames(c);
  }

  /** pandas' `rename` is simultaneous: it clashes when a source column and its
      target are both present. */
  predicate RookieRenameClash(t: Table)
  {
    || ("MP.1" in t.columns && "MP/G" in t.columns)
    || ("PTS.1" in t.columns && "PTS/G" in t.columns)
    || ("TRB.1" in t.columns && "TRB/G" in t.columns)
    || ("AST.1" in t.columns && "AST/G" in t.columns)
  }

  /** Some row of `t` has a rank that is present but is not text. */
  predicate NonTextRank(t: Table)
    requires "Rk" in t.columns
  {
    exists k | 0 <= k < |t.rows| :: t.rows[k]["Rk"].Some? && !IsText(t.rows[k]["Rk"])
  }

  /** Why `extract_rookies_data` fails on a located table (the `except` branch): a
      rename clash, no `Rk` column (`KeyError`), a numeric `Rk` column, or a present
      rank that is not text (the mask holds NaN). */
  predicate RookiesFail(raw: Table)
  {
    || RookieRenameClash(raw)
    || "Rk" !in raw.columns
    || !TextColumn(raw, "Rk")
    || NonTextRank(raw)
  }

  /** Lines 27-31: rename the per-game columns, drop rows with a missing rank, drop
      the repeated header rows. */
  function NormalizeRookies(raw: Table): Option<Table>
  {
    match RenameAll(raw, RookieRenames)
    case None => None
    case Some(t) =>
      if "Rk" !in t.columns || !TextColumn(t, "Rk") then None
      else
        var present := FilterRows(t, RankPresent);
        if !AllText(present, "Rk") then None
        else Some(FilterRows(present, NotHeaderRow))
  }

  /** The rename maps every column to its per-game name, position by position. */
  lemma RookiesRenameAllColumns(t: Table)
    requires RenameAll(t, RookieRenames).Some?
    ensures var r := RenameAll(t, RookieRenames).value;
      |r.columns| == |t.columns| && forall i | 0 <= i < |t.columns| :: r.columns[i] == PerGameName(t.columns[i])
  {
    forall i | 0 <= i < |t.columns|
      ensures RenameAll(t, RookieRenames).value.columns[i] == PerGameName(t.columns[i])
    {
      RookiesRenameColumns(t, i);
    }
  }

  /** No column is renamed to or from `Rk`. */
  lemma RankNameKept(cols: seq<string>, renamed: seq<string>)
    requires |renamed| == |cols| && forall i | 0 <= i < |cols| :: renamed[i] == PerGameName(cols[i])
    ensures "Rk" in renamed <==> "Rk" in cols
  {
    if "Rk" in cols {
      var i :| 0 <= i < |cols| && cols[i] == "Rk";
      assert renamed[i] == "Rk";
    }
    if "Rk" in renamed {
      var i :| 0 <= i < |renamed| && renamed[i] == "Rk";
      assert cols[i] == "Rk";
    }
  }

  /** The renamed table has an `Rk` column exactly when the parsed one has. */
  lemma RookiesRankColumn(raw: Table)
    requires RenameAll(raw, RookieRenames).Some?
    ensures "Rk" in RenameAll(raw, RookieRenames).value.columns <==> "Rk" in raw.columns
  {
    RookiesRenameAllColumns(raw);
    RankNameKept(raw.columns, RenameAll(raw, RookieRenames).value.columns);
  }

  /** The renamed table keeps the `Rk` column and its cells. */
  lemma RookiesRankKept(raw: Table)
    requires RenameAll(raw, RookieRenames).Some?
    ensures var t := RenameAll(raw, RookieRenames).value;
      && ("Rk" in t.columns <==> "Rk" in raw.columns)
      && ("Rk" in raw.columns ==> forall k | 0 <= k < |raw.rows| :: t.rows[k]["Rk"] == raw.rows[k]["Rk"])
  {
    RookiesRankColumn(raw);
    if "Rk" in raw.columns {
      forall k | 0 <= k < |raw.rows|
        ensures RenameAll(raw, RookieRenames).value.rows[k]["Rk"] == raw.rows[k]["Rk"]
      {
        RookiesRenameCells(raw, k, "Rk");
      }
    }
  }

  /** The rank tests read the same on the renamed table as on the parsed one. */
  lemma RookiesRankTests(raw: Table)
    requires RenameAll(raw, RookieRenames).Some? && "Rk" in raw.columns
    ensures var t := RenameAll(raw, RookieRenames).value;
      && "Rk" in t.columns
      && (TextColumn(t, "Rk") <==> TextColumn(raw, "Rk"))
      && (NonTextRank(t) <==> NonTextRank(raw))
  {
    RookiesRankKept(raw);
  }

  /** After the `notna` filter every rank is text exactly when no present rank was
      anything else. */
  lemma PresentRanksText(t: Table)
    requires "Rk" in t.columns
    ensures AllText(FilterRows(t, RankPresent), "Rk") <==> !NonTextRank(t)
  {
    var present := FilterRows(t, RankPresent);
    if NonTextRank(t) {
      var k :| 0 <= k < |t.rows| && t.rows[k]["Rk"].Some? && !IsText(t.rows[k]["Rk"]);
      assert t.rows[k] in t.rows;
      assert t.rows[k] in present.rows;
    } else {
      forall j | 0 <= j < |present.rows| ensures IsText(present.rows[j]["Rk"]) {
        assert present.rows[j] in t.rows;
      }
    }
  }

  /** The rookies table: fails exactly as described by `RookiesFail`; otherwise its
      columns are the renamed ones and its rows are exactly the renamed rows whose
      rank is present and is not a header marker, in their original order. */
  lemma RookiesNormalized(raw: Table)
    ensures NormalizeRookies(raw).None? <==> RookiesFail(raw)
    ensures NormalizeRookies(raw).Some? ==>
      && RenameAll(raw, RookieRenames).Some?
      && var t := RenameAll(raw, RookieRenames).value;
         var r := NormalizeRookies(raw).value;
         && r.columns == t.columns
         && r.rows == Select(t.rows, NotHeaderRow)
  {
    RookiesRenameFails(raw);
    match RenameAll(raw, RookieRenames)
    case None =>
    case Some(t) =>
      RookiesRankKept(raw);
      if "Rk" in raw.columns {
        RookiesRankTests(raw);
        if TextColumn(t, "Rk") {
          PresentRanksText(t);
          SelectNarrow(t.rows, RankPresent, NotHeaderRow);
        }
      }
  }

  // ---------------------------------------------------------------------------
  // Advanced stats: lines 96-103

  /** The spacer columns of the advanced-stats table. */
  const AdvancedSpacers: seq<string> := ["Unnamed: 19", "Unnamed: 24"]

  /** The player names of the rows that are not repeated headers pass `.str`: some
      is text, or all are missing. */
  predicate PlayerValues(raw: Table)
    requires "Player" in raw.columns
  {
    || (exists k | 0 <= k < |raw.rows| :: NotHeaderRow(raw.rows[k]) && IsText(raw.rows[k]["Player"]))
    || (forall k | 0 <= k < |raw.rows| :: NotHeaderRow(raw.rows[k]) ==> raw.rows[k]["Player"].None?)
  }

  /** Why `extract_advanced_stats` fails on a located table: a spacer column is
      missing (`KeyError` from `drop`), there is no `Rk` column, a rank is not text,
      there is no `Player` column, it is numeric, or the names left after the
      header filter are all numeric. */
  predicate AdvancedFail(raw: Table)
  {
    || "Unnamed: 19" !in raw.columns
    || "Unnamed: 24" !in raw.columns
    || "Rk" !in raw.columns
    || !AllText(raw, "Rk")
    || "Player" !in raw.columns
    || !TextColumn(raw, "Player")
    || !PlayerValues(raw)
  }

  /** Lines 99-103: drop the spacers, drop the repeated header rows, strip the Hall
      of Fame star from the player names. */
  function NormalizeAdvanced(raw: Table): Option<Table>
  {
    match DropColumns(raw, AdvancedSpacers)
    case None => None
    case Some(d) =>
      if "Rk" !in d.columns || !AllText(d, "Rk") then None
      else
        var kept := FilterRows(d, NotHeaderRow);
        if "Player" !in d.columns || !TextColumn(d, "Player") || !TextValues(kept, "Player") then None
        else Some(MapColumn(kept, "Player", StripStar))
  }

  /** The spacers are exactly the columns the drop removes. */
  lemma AdvancedDrop(raw: Table)
    requires "Unnamed: 19" in raw.columns && "Unnamed: 24" in raw.columns
    ensures DropColumns(raw, AdvancedSpacers) == Some(DropSet(raw, {"Unnamed: 19", "Unnamed: 24"}))
    ensures var d := DropSet(raw, {"Unnamed: 19", "Unnamed: 24"});
      && ("Rk" in d.columns <==> "Rk" in raw.columns)
      && ("Player" in d.columns <==> "Player" in raw.columns)
      && forall k | 0 <= k < |raw.rows| :: d.rows[k] == raw.rows[k] - {"Unnamed: 19", "Unnamed: 24"}
  {
    assert Names(AdvancedSpacers) == {"Unnamed: 19", "Unnamed: 24"};
  }

  /** The rank and player tests read the same after the drop. */
  lemma AdvancedTests(raw: Table)
    requires "Unnamed: 19" in raw.columns && "Unnamed: 24" in raw.columns
    requires "Rk" in raw.columns && "Player" in raw.columns
    ensures var d := DropSet(raw, {"Unnamed: 19", "Unnamed: 24"});
      && "Rk" in d.columns && "Player" in d.columns
      && (AllText(d, "Rk") <==> AllText(raw, "Rk"))
      && (TextColumn(d, "Player") <==> TextColumn(raw, "Player"))
  {
    AdvancedDrop(raw);
  }

  /** Some kept row's name passes `test` exactly when some non-header row of the
      parsed rows `rs` has such a name (`ds` are those rows after the drop). */
  lemma KeptNames(rs: seq<Row>, ds: seq<Row>, kept: seq<Row>, test: Cell -> bool)
    requires |ds| == |rs|
    requires forall k | 0 <= k < |rs| ::
      && "Player" in rs[k] && "Player" in ds[k]
      && ds[k]["Player"] == rs[k]["Player"] && (NotHeaderRow(ds[k]) <==> NotHeaderRow(rs[k]))
    requires forall x :: x in kept <==> x in ds && NotHeaderRow(x)
    ensures (exists j | 0 <= j < |kept| :: "Player" in kept[j] && test(kept[j]["Player"])) <==>
      (exists k | 0 <= k < |rs| :: NotHeaderRow(rs[k]) && test(rs[k]["Player"]))
  {
    if j :| 0 <= j < |kept| && "Player" in kept[j] && test(kept[j]["Player"]) {
      assert kept[j] in ds;
      var k :| 0 <= k < |ds| && ds[k] == kept[j];
      assert NotHeaderRow(rs[k]) && test(rs[k]["Player"]);
    }
    if k :| 0 <= k < |rs| && NotHeaderRow(rs[k]) && test(rs[k]["Player"]) {
      assert ds[k] in kept;
      var j :| 0 <= j < |kept| && kept[j] == ds[k];
      assert "Player" in kept[j] && test(kept[j]["Player"]);
    }
  }

  /** The names left after the header filter pass `.str` exactly when
      `PlayerValues` holds of the parsed table. */
  lemma AdvancedPlayerValues(raw: Table)
    requires "Unnamed: 19" in raw.columns && "Unnamed: 24" in raw.columns
    requires "Player" in raw.columns
    ensures var f := FilterRows(DropSet(raw, {"Unnamed: 19", "Unnamed: 24"}), NotHeaderRow);
      "Player" in f.columns && (TextValues(f, "Player") <==> PlayerValues(raw))
  {
    AdvancedDrop(raw);
    var d := DropSet(raw, {"Unnamed: 19", "Unnamed: 24"});
    var f := FilterRows(d, NotHeaderRow);
    forall k | 0 <= k < |raw.rows|
      ensures && "Player" in raw.rows[k] && "Player" in d.rows[k]
        && d.rows[k]["Player"] == raw.rows[k]["Player"] && (NotHeaderRow(d.rows[k]) <==> NotHeaderRow(raw.rows[k]))
    {
      assert d.rows[k] == raw.rows[k] - {"Unnamed: 19", "Unnamed: 24"};
    }
    KeptNames(raw.rows, d.rows, f.rows, IsText);
    KeptNames(raw.rows, d.rows, f.rows, (c: Cell) => c.Some?);
  }

  /** The advanced-stats table fails exactly as described by `AdvancedFail`. */
  lemma AdvancedFails(raw: Table)
    ensures NormalizeAdvanced(raw).None? <==> AdvancedFail(raw)
  {
    var spacers := AdvancedSpacers;
    if "Unnamed: 19" !in raw.columns {
      assert spacers[0] in spacers && spacers[0] !in raw.columns;
    } else if "Unnamed: 24" !in raw.columns {
      assert spacers[1] in spacers && spacers[1] !in raw.columns;
    } else {
      AdvancedDrop(raw);
      var d := DropSet(raw, {"Unnamed: 19", "Unnamed: 24"});
      var kept := FilterRows(d, NotHeaderRow);
      assert NormalizeAdvanced(raw) ==
        if "Rk" !in d.columns || !AllText(d, "Rk") then None
        else if "Player" !in d.columns || !TextColumn(d, "Player") || !TextValues(kept, "Player") then None
        else Some(MapColumn(kept, "Player", StripStar));
      if "Rk" in raw.columns && "Player" in raw.columns {
        AdvancedTests(raw);
        AdvancedPlayerValues(raw);
      }
    }
  }

  /** Otherwise it has every column but the two spacers, in order, and its rows are
      the non-header rows in their original order (each one kept), each with its
      player name stripped of `*` and every other cell unchanged. */
  lemma AdvancedNormalized(raw: Table)
    requires NormalizeAdvanced(raw).Some?
    ensures var r := NormalizeAdvanced(raw).value;
      var d := DropSet(raw, {"Unnamed: 19", "Unnamed: 24"});
      var kept := Select(d.rows, NotHeaderRow);
      && r.columns == Without(raw.columns, {"Unnamed: 19", "Unnamed: 24"})
      && "Unnamed: 19" !in r.columns && "Unnamed: 24" !in r.columns
      && (forall c | c in raw.columns && c != "Unnamed: 19" && c != "Unnamed: 24" :: c in r.columns)
      && (forall x | x in d.rows && NotHeaderRow(x) :: x in kept)
      && |r.rows| == |kept|
      && (forall k | 0 <= k < |kept| :: "Player" in kept[k])
      && (forall k | 0 <= k < |kept| :: r.rows[k] == kept[k]["Player" := StripStar(kept[k]["Player"])])
  {
    AdvancedFails(raw);
    AdvancedDrop(raw);
    var r := NormalizeAdvanced(raw).value;
    var d := DropSet(raw, {"Unnamed: 19", "Unnamed: 24"});
    assert Names(r.columns) == Names(raw.columns) - {"Unnamed: 19", "Unnamed: 24"};
    var kept := Select(d.rows, NotHeaderRow);
    forall k | 0 <= k < |kept| ensures "Player" in kept[k] {
      assert kept[k] in d.rows;
    }
  }

  /** Each player name of the advanced-stats table is the name of its kept row with
      every `*` removed (NaN where that name was not text), so no name contains `*`. */
  lemma AdvancedPlayersStripped(raw: Table)
    requires NormalizeAdvanced(raw).Some?
    ensures var r := NormalizeAdvanced(raw).value;
      var kept := Select(DropSet(raw, {"Unnamed: 19", "Unnamed: 24"}).rows, NotHeaderRow);
      && "Player" in r.columns && |r.rows| == |kept|
      && (forall k | 0 <= k < |kept| :: "Player" in kept[k] &&
            r.rows[k]["Player"] ==
              if IsText(kept[k]["Player"]) then Some(Str(RemoveChar(kept[k]["Player"].value.s, '*'))) else None)
      && (forall k | 0 <= k < |r.rows| ::
            r.rows[k]["Player"].Some? ==> IsText(r.rows[k]["Player"]) && '*' !in r.rows[k]["Player"].value.s)
  {
    AdvancedFails(raw);
    AdvancedDrop(raw);
    AdvancedNormalized(raw);
  }

  // ---------------------------------------------------------------------------
  // Standings: lines 134-162

  /** One `<a>` element of the page's stats tables: its `href` attribute, if it has
      one, and its text. */
  datatype Anchor = Anchor(href: Option<string>, text: string)

  /** What the standings page yields: the two conference tables (absent when not
      found) and every anchor of its stats tables, in document order. */
  datatype StandingsPage = StandingsPage(east: Option<Table>, west: Option<Table>, anchors: seq<Anchor>)

  /** Lines 139-140: tag the East table, then name its team column `TEAM_NAME`. */
  function TagEast(east: Table): Option<Table>
  {
    RenameColumn(SetColumn(east, "Conference", Some(Str("East"))), "Eastern Conference", "TEAM_NAME")
  }

  /** Lines 143-144: name the West team column `TEAM_NAME`, then tag the table. */
  function TagWest(west: Table): Option<Table>
  {
    match RenameColumn(west, "Western Conference", "TEAM_NAME")
    case None => None
    case Some(w) => Some(SetColumn(w, "Conference", Some(Str("West"))))
  }

  /** What tagging a conference table does: it fails exactly when the table already
      has a `TEAM_NAME` column beside its team column; otherwise every row gets the
      conference tag, the team column's cells move to `TEAM_NAME`, and every other
      cell stays. */
  predicate TaggedAs(t: Table, conference: string, team: string, r: Option<Table>)
  {
    && (r.None? <==> team in t.columns && "TEAM_NAME" in t.columns)
    && (r.Some? ==>
      && |r.value.rows| == |t.rows|
      && "Conference" in r.value.columns
      && (team in t.columns ==> "TEAM_NAME" in r.value.columns)
      && (forall c | c in t.columns && c != "Conference" && c != team && c != "TEAM_NAME" :: c in r.value.columns)
      && (forall k | 0 <= k < |t.rows| :: r.value.rows[k]["Conference"] == Some(Str(conference)))
      && (team in t.columns ==> forall k | 0 <= k < |t.rows| :: r.value.rows[k]["TEAM_NAME"] == t.rows[k][team])
      && (forall k, c | 0 <= k < |t.rows| && c in t.columns && c != "Conference" && c != team && c != "TEAM_NAME" ::
            r.value.rows[k][c] == t.rows[k][c]))
  }

  lemma TagEastSpec(east: Table)
    ensures TaggedAs(east, "East", "Eastern Conference", TagEast(east))
  {
    var e := SetColumn(east, "Conference", Some(Str("East")));
    assert ("Eastern Conference" in e.columns) == ("Eastern Conference" in east.columns);
    assert ("TEAM_NAME" in e.columns) == ("TEAM_NAME" in east.columns);
    if TagEast(east).Some? {
      TagEastCells(east);
    }
  }

  lemma TagEastCells(east: Table)
    requires TagEast(east).Some?
    ensures var r := TagEast(east).value;
      && |r.rows| == |east.rows|
      && "Conference" in r.columns
      && (forall k | 0 <= k < |east.rows| :: r.rows[k]["Conference"] == Some(Str("East")))
      && ("Eastern Conference" in east.columns ==> "TEAM_NAME" in r.columns)
      && ("Eastern Conference" in east.columns ==>
            forall k | 0 <= k < |east.rows| :: r.rows[k]["TEAM_NAME"] == east.rows[k]["Eastern Conference"])
      && (forall c | c in east.columns && c != "Conference" && c != "Eastern Conference" && c != "TEAM_NAME" ::
            c in r.columns)
      && (forall k, c | 0 <= k < |east.rows| && c in east.columns && c != "Conference" && c != "Eastern Conference" && c != "TEAM_NAME" ::
            r.rows[k][c] == east.rows[k][c])
  {
    var e := SetColumn(east, "Conference", Some(Str("East")));
    RenameColumnCells(e, "Eastern Conference", "TEAM_NAME");
    assert "Conference" in e.columns;
  }

  lemma TagWestSpec(west: Table)
    ensures TaggedAs(west, "West", "Western Conference", TagWest(west))
  {
    if TagWest(west).Some? {
      TagWestCells(west);
    }
  }

  lemma TagWestCells(west: Table)
    requires TagWest(west).Some?
    ensures var r := TagWest(west).value;
      && |r.rows| == |west.rows|
      && "Conference" in r.columns
      && (forall k | 0 <= k < |west.rows| :: r.rows[k]["Conference"] == Some(Str("West")))
      && ("Western Conference" in west.columns ==> "TEAM_NAME" in r.columns)
      && ("Western Conference" in west.columns ==>
            forall k | 0 <= k < |west.rows| :: r.rows[k]["TEAM_NAME"] == west.rows[k]["Western Conference"])
      && (forall c | c in west.columns && c != "Conference" && c != "Western Conference" && c != "TEAM_NAME" ::
            c in r.columns)
      && (forall k, c | 0 <= k < |west.rows| && c in west.columns && c != "Conference" && c != "Western Conference" && c != "TEAM_NAME" ::
            r.rows[k][c] == west.rows[k][c])
  {
    RenameColumnCells(west, "Western Conference", "TEAM_NAME");
  }

  /** Line 150: stack the tagged East table above the tagged West table. */
  function UnionStandings(east: Table, west: Table): Option<Table>
  {
    match TagEast(east)
    case None => None
    case Some(e) =>
      match TagWest(west)
      case None => None
      case Some(w) => Concat([e, w])
  }

  /** The union fails exactly when a tagging fails; otherwise it holds the tagged
      East rows, then the tagged West rows, each widened to the union's columns. */
  lemma UnionStandingsRows(east: Table, west: Table)
    ensures UnionStandings(east, west).None? <==> TagEast(east).None? || TagWest(west).None?
    ensures UnionStandings(east, west).Some? ==>
      var u := UnionStandings(east, west).value;
      var e := TagEast(east).value;
      var w := TagWest(west).value;
      && |u.rows| == |east.rows| + |west.rows|
      && (forall c | c in e.columns || c in w.columns :: c in u.columns)
      && (forall k | 0 <= k < |u.rows| ::
            u.rows[k] == if k < |east.rows| then Pad(e.rows[k], u.columns) else Pad(w.rows[k - |east.rows|], u.columns))
  {
    TagEastSpec(east);
    TagWestSpec(west);
    if UnionStandings(east, west).Some? {
      var e := TagEast(east).value;
      var w := TagWest(west).value;
      ConcatTwo(e, w);
      var u := UnionStandings(east, west).value;
      forall k | |east.rows| <= k < |u.rows|
        ensures u.rows[k] == Pad(w.rows[k - |east.rows|], u.columns)
      {
        assert u.rows[|e.rows| + (k - |east.rows|)] == Pad(w.rows[k - |east.rows|], u.columns);
      }
    }
  }

  /** A union that does not fail is the concatenation of the two tagged tables. */
  lemma UnionStandingsIs(east: Table, west: Table)
    requires UnionStandings(east, west).Some?
    ensures TagEast(east).Some? && TagWest(west).Some?
    ensures UnionStandings(east, west) == Concat([TagEast(east).value, TagWest(west).value])
  {
  }

  /** The union has a row per conference row, a `Conference` column, and a
      `TEAM_NAME` column when a conference table has its team column. */
  lemma UnionStandingsShape(east: Table, west: Table)
    requires UnionStandings(east, west).Some?
    ensures var u := UnionStandings(east, west).value;
      && |u.rows| == |east.rows| + |west.rows|
      && "Conference" in u.columns
      && ("Eastern Conference" in east.columns || "Western Conference" in west.columns ==> "TEAM_NAME" in u.columns)
  {
    UnionStandingsRows(east, west);
    TagEastCells(east);
    TagWestCells(west);
  }

  /** Row `k` of the union carries the `Conference` tag of the table it comes from. */
  ghost predicate ConferenceFrom(east: Table, u: Table, k: int)
    requires 0 <= k < |u.rows| && "Conference" in u.columns
  {
    u.rows[k]["Conference"] == Some(Str(if k < |east.rows| then "East" else "West"))
  }

  /** Every East row of the union comes before every West row and carries the
      `Conference` tag of its table. */
  lemma UnionStandingsConference(east: Table, west: Table)
    requires UnionStandings(east, west).Some?
    ensures var u := UnionStandings(east, west).value;
      && |u.rows| == |east.rows| + |west.rows|
      && "Conference" in u.columns
      && forall k | 0 <= k < |u.rows| ::
           u.rows[k]["Conference"] == Some(Str(if k < |east.rows| then "East" else "West"))
  {
    UnionStandingsShape(east, west);
    var u := UnionStandings(east, west).value;
    forall k | 0 <= k < |u.rows|
      ensures ConferenceFrom(east, u, k)
    {
      UnionStandingsConferenceRow(east, west, k);
    }
    ConferencesFromAll(east, u);
  }

  /** One row of `UnionStandingsConference`. */
  lemma UnionStandingsConferenceRow(east: Table, west: Table, k: int)
    requires UnionStandings(east, west).Some?
    requires 0 <= k < |east.rows| + |west.rows|
    ensures var u := UnionStandings(east, west).value;
      && |u.rows| == |east.rows| + |west.rows| && "Conference" in u.columns
      && ConferenceFrom(east, u, k)
  {
    if k < |east.rows| {
      TagEastCells(east);
    } else {
      TagWestCells(west);
    }
    UnionStandingsIs(east, west);
    ConcatTwoCell(TagEast(east).value, TagWest(west).value, k, "Conference");
  }

  /** The per-row facts of `UnionStandingsConference`, spelled out. */
  lemma ConferencesFromAll(east: Table, u: Table)
    requires "Conference" in u.columns
    requires forall k | 0 <= k < |u.rows| :: ConferenceFrom(east, u, k)
    ensures forall k | 0 <= k < |u.rows| ::
      u.rows[k]["Conference"] == Some(Str(if k < |east.rows| then "East" else "West"))
  {
    forall k | 0 <= k < |u.rows|
      ensures u.rows[k]["Conference"] == Some(Str(if k < |east.rows| then "East" else "West"))
    {
      assert ConferenceFrom(east, u, k);
    }
  }

  /** Row `k` of the union takes its `TEAM_NAME` from the conference column of the
      table it comes from. */
  ghost predicate TeamNameFrom(east: Table, west: Table, u: Table, k: int)
    requires 0 <= k < |u.rows| && "TEAM_NAME" in u.columns
    requires |u.rows| == |east.rows| + |west.rows|
    requires "Eastern Conference" in east.columns && "Western Conference" in west.columns
  {
    u.rows[k]["TEAM_NAME"] ==
      if k < |east.rows| then east.rows[k]["Eastern Conference"] else west.rows[k - |east.rows|]["Western Conference"]
  }

  /** When both tables have their conference column, the union's `TEAM_NAME` cells
      are those columns' cells, East first. */
  lemma UnionStandingsTeamNames(east: Table, west: Table)
    requires UnionStandings(east, west).Some?
    requires "Eastern Conference" in east.columns && "Western Conference" in west.columns
    ensures var u := UnionStandings(east, west).value;
      && |u.rows| == |east.rows| + |west.rows|
      && "TEAM_NAME" in u.columns
      && forall k | 0 <= k < |u.rows| ::
           u.rows[k]["TEAM_NAME"] ==
             if k < |east.rows| then east.rows[k]["Eastern Conference"]
             else west.rows[k - |east.rows|]["Western Conference"]
  {
    UnionStandingsShape(east, west);
    var u := UnionStandings(east, west).value;
    forall k | 0 <= k < |u.rows|
      ensures TeamNameFrom(east, west, u, k)
    {
      UnionStandingsTeamName(east, west, k);
    }
    TeamNamesFromAll(east, west, u);
  }

  /** The per-row facts of `UnionStandingsTeamNames`, spelled out. */
  lemma TeamNamesFromAll(east: Table, west: Table, u: Table)
    requires "TEAM_NAME" in u.columns && |u.rows| == |east.rows| + |west.rows|
    requires "Eastern Conference" in east.columns && "Western Conference" in west.columns
    requires forall k | 0 <= k < |u.rows| :: TeamNameFrom(east, west, u, k)
    ensures forall k | 0 <= k < |u.rows| ::
      u.rows[k]["TEAM_NAME"] ==
        if k < |east.rows| then east.rows[k]["Eastern Conference"] else west.rows[k - |east.rows|]["Western Conference"]
  {
    forall k | 0 <= k < |u.rows|
      ensures u.rows[k]["TEAM_NAME"] ==
        if k < |east.rows| then east.rows[k]["Eastern Conference"] else west.rows[k - |east.rows|]["Western Conference"]
    {
      assert TeamNameFrom(east, west, u, k);
    }
  }

  /** One row of `UnionStandingsTeamNames`. */
  lemma UnionStandingsTeamName(east: Table, west: Table, k: int)
    requires UnionStandings(east, west).Some?
    requires "Eastern Conference" in east.columns && "Western Conference" in west.columns
    requires 0 <= k < |east.rows| + |west.rows|
    ensures var u := UnionStandings(east, west).value;
      && |u.rows| == |east.rows| + |west.rows| && "TEAM_NAME" in u.columns
      && TeamNameFrom(east, west, u, k)
  {
    if k < |east.rows| {
      TagEastCells(east);
    } else {
      TagWestCells(west);
    }
    UnionStandingsIs(east, west);
    ConcatTwoCell(TagEast(east).value, TagWest(west).value, k, "TEAM_NAME");
  }

  // ---------------------------------------------------------------------------
  // Team abbreviations and the final join: lines 151-162

  /** `href.split('/')[2]`; fewer than three components raise `IndexError`. */
  function Abbreviation(href: string): (r: Option<string>)
    ensures r.Some? ==> '/' !in r.value
  {
    var parts := Split(href, '/');
    if |parts| < 3 then None else Some(parts[2])
  }

  /** A link built from `/`-free components has its third component as
      abbreviation. */
  lemma AbbreviationOfLink(parts: seq<string>)
    requires |parts| >= 3 && forall k | 0 <= k < |parts| :: '/' !in parts[k]
    ensures Abbreviation(Join(parts, '/')) == Some(parts[2])
  {
    SplitJoin(parts, '/');
  }

  /** The abbreviation is missing exactly when the link has fewer than two `/`. */
  lemma AbbreviationFails(href: string)
    ensures Abbreviation(href).None? <==> Count(href, '/') < 2
  {
    SplitCount(href, '/');
  }

  /** A team page link gives the team's abbreviation. */
  lemma AbbreviationExample()
    ensures Abbreviation("/teams/BOS/2000.html") == Some("BOS")
  {
    var parts := ["", "teams", "BOS", "2000.html"];
    assert Join(parts, '/') == "/teams/BOS/2000.html";
    AbbreviationOfLink(parts);
  }

  /** The abbreviation of the link and the text of an anchor whose link can be read. */
  predicate Readable(a: Anchor)
  {
    a.href.Some? && Abbreviation(a.href.value).Some?
  }

  const TeamColumns: seq<string> := ["TEAM_ABBREVIATION", "TEAM_NAME"]

  function TeamRow(abbr: string, name: string): (r: Row)
    ensures Fits(r, TeamColumns)
  {
    var r := map["TEAM_ABBREVIATION" := Some(Str(abbr)), "TEAM_NAME" := Some(Str(name))];
    assert Names(TeamColumns) == {"TEAM_ABBREVIATION", "TEAM_NAME"};
    r
  }

  /** The row an anchor contributes. */
  function AnchorRow(a: Anchor): Row
    requires Readable(a)
  {
    TeamRow(Abbreviation(a.href.value).value, a.text)
  }

  /** Lines 157-159: the (abbreviation, name) table of the anchors, one row per
      anchor in order; an anchor without `href` (`KeyError`) or with a short link
      (`IndexError`) fails. */
  function TeamsTable(anchors: seq<Anchor>): (r: Option<Table>)
    ensures r.None? <==> exists k | 0 <= k < |anchors| :: !Readable(anchors[k])
    ensures r.Some? ==> r.value.columns == TeamColumns && |r.value.rows| == |anchors|
    ensures r.Some? ==> forall k | 0 <= k < |anchors| :: r.value.rows[k] == AnchorRow(anchors[k])
  {
    if exists k | 0 <= k < |anchors| :: !Readable(anchors[k]) then None
    else
      var rows := seq(|anchors|, k requires 0 <= k < |anchors| => AnchorRow(anchors[k]));
      assert forall x | x in rows :: Fits(x, TeamColumns);
      Some(Frame(TeamColumns, rows))
  }

  /** After `drop_duplicates` the team table holds every anchor's pair exactly once. */
  lemma TeamsDeduplicated(anchors: seq<Anchor>)
    requires TeamsTable(anchors).Some?
    ensures var d := DropDuplicates(TeamsTable(anchors).value);
      && d.columns == TeamColumns
      && NoDuplicates(d.rows)
      && (forall k | 0 <= k < |anchors| :: AnchorRow(anchors[k]) in d.rows)
      && (forall x | x in d.rows :: exists k :: 0 <= k < |anchors| && x == AnchorRow(anchors[k]))
  {
    var t := TeamsTable(anchors).value;
    forall k | 0 <= k < |anchors| ensures AnchorRow(anchors[k]) in t.rows {
      assert t.rows[k] == AnchorRow(anchors[k]);
    }
    forall x | x in t.rows ensures exists k :: 0 <= k < |anchors| && x == AnchorRow(anchors[k]) {
      var k :| 0 <= k < |t.rows| && t.rows[k] == x;
    }
  }

  /** Lines 151-162 after the union: strip `*` from the team names, then keep the
      rows whose name is some anchor's text, each joined with that anchor's
      abbreviation. */
  function JoinTeams(u: Table, anchors: seq<Anchor>): Option<Table>
  {
    if "TEAM_NAME" !in u.columns || !TextColumn(u, "TEAM_NAME") then None
    else
      var s := MapColumn(u, "TEAM_NAME", StripStar);
      match TeamsTable(anchors)
      case None => None
      case Some(teams) => Merge(Inner, s, DropDuplicates(teams), ["TEAM_NAME"], ["TEAM_NAME"], "_x", "_y")
  }

  /** The standings of lines 150-162. */
  function NormalizeStandings(east: Table, west: Table, anchors: seq<Anchor>): Option<Table>
  {
    match UnionStandings(east, west)
    case None => None
    case Some(u) => JoinTeams(u, anchors)
  }

  /** The join plan when the union has no abbreviation column of its own: the
      abbreviation is appended as the last column and the merge cannot fail. */
  lemma StandingsPlan(s: Table, teams: Table)
    requires "TEAM_NAME" in s.columns && "TEAM_ABBREVIATION" !in s.columns
    requires teams.columns == TeamColumns
    ensures var p := MakePlan(Inner, s, teams, ["TEAM_NAME"], ["TEAM_NAME"], "_x", "_y");
      && p.kept == ["TEAM_ABBREVIATION"]
      && p.out == s.columns + ["TEAM_ABBREVIATION"]
      && !MergeFails(s, teams, ["TEAM_NAME"], ["TEAM_NAME"], "_x", "_y")
      && ValidPlan(p)
  {
    var p := MakePlan(Inner, s, teams, ["TEAM_NAME"], ["TEAM_NAME"], "_x", "_y");
    assert SharedKeys(["TEAM_NAME"], ["TEAM_NAME"]) == {"TEAM_NAME"};
    var tn: seq<string> := ["TEAM_NAME"];
    assert TeamColumns[1..] == tn && tn[1..] == [];
    assert Without(tn, {"TEAM_NAME"}) == [];
    assert p.kept == ["TEAM_ABBREVIATION"];
    assert Overlap(s.columns, p.kept) == {};
    assert Suffixed(s.columns, {}, "_x") == s.columns;
    assert p.out == s.columns + ["TEAM_ABBREVIATION"];
    assert NoDuplicates(p.out) by {
      forall i, j | 0 <= i < j < |p.out| ensures p.out[i] != p.out[j] {
        if j == |s.columns| {
          assert p.out[i] == s.columns[i];
        }
      }
    }
    assert Merge(Inner, s, teams, ["TEAM_NAME"], ["TEAM_NAME"], "_x", "_y").Some?;
  }

  /** Line 162 with a union that has its own `TEAM_ABBREVIATION`: the merge renames
      both copies with `_x` and `_y`, which clashes with a column already named so. */
  predicate SuffixClash(cols: seq<string>)
  {
    "TEAM_ABBREVIATION" in cols && ("TEAM_ABBREVIATION_x" in cols || "TEAM_ABBREVIATION_y" in cols)
  }

  /** The team merge fails exactly on a suffix clash. */
  lemma TeamMergeFails(s: Table, teams: Table)
    requires "TEAM_NAME" in s.columns && teams.columns == TeamColumns
    ensures MergeFails(s, teams, ["TEAM_NAME"], ["TEAM_NAME"], "_x", "_y") <==> SuffixClash(s.columns)
  {
    if "TEAM_ABBREVIATION" !in s.columns {
      StandingsPlan(s, teams);
    } else {
      var p := MakePlan(Left, s, teams, ["TEAM_NAME"], ["TEAM_NAME"], "_x", "_y");
      assert SharedKeys(["TEAM_NAME"], ["TEAM_NAME"]) == {"TEAM_NAME"};
      var tn: seq<string> := ["TEAM_NAME"];
      assert TeamColumns[1..] == tn && tn[1..] == [];
      assert Without(tn, {"TEAM_NAME"}) == [];
      assert p.kept == ["TEAM_ABBREVIATION"];
      assert Overlap(s.columns, p.kept) == {"TEAM_ABBREVIATION"};
      var ay: string := "TEAM_ABBREVIATION_y";
      assert "TEAM_ABBREVIATION" + "_y" == ay;
      assert Suffixed(p.kept, {"TEAM_ABBREVIATION"}, "_y") == [ay];
      SuffixedClash(s.columns, p.out);
    }
  }

  /** The names of a merge whose only suffixed column is `TEAM_ABBREVIATION` repeat
      exactly when the left names already hold one of the suffixed names. */
  lemma SuffixedClash(cols: seq<string>, out: seq<string>)
    requires NoDuplicates(cols) && "TEAM_ABBREVIATION" in cols
    requires out == Suffixed(cols, {"TEAM_ABBREVIATION"}, "_x") + ["TEAM_ABBREVIATION_y"]
    ensures NoDuplicates(out) <==> "TEAM_ABBREVIATION_x" !in cols && "TEAM_ABBREVIATION_y" !in cols
  {
    var ax: string := "TEAM_ABBREVIATION_x";
    var ay: string := "TEAM_ABBREVIATION_y";
    assert "TEAM_ABBREVIATION" + "_x" == ax;
    var n := |cols|;
    assert |out| == n + 1 && out[n] == ay;
    var i :| 0 <= i < n && cols[i] == "TEAM_ABBREVIATION";
    assert out[i] == ax;
    if ax in cols {
      var j :| 0 <= j < n && cols[j] == ax;
      assert out[j] == ax && i != j;
    } else if ay in cols {
      var j :| 0 <= j < n && cols[j] == ay;
      assert out[j] == ay;
    } else {
      forall a, b | 0 <= a < b < |out| ensures out[a] != out[b] {
        assert cols[a] in cols;
        if b < n {
          assert cols[b] in cols && cols[a] != cols[b];
        }
      }
    }
  }

  /** When the team join fails: no text `TEAM_NAME` column to strip, an anchor
      that cannot be read, or a suffix clash in the merge. */
  predicate JoinFail(u: Table, anchors: seq<Anchor>)
  {
    || "TEAM_NAME" !in u.columns
    || !TextColumn(u, "TEAM_NAME")
    || (exists k | 0 <= k < |anchors| :: !Readable(anchors[k]))
    || SuffixClash(u.columns)
  }

  lemma JoinTeamsFails(u: Table, anchors: seq<Anchor>)
    ensures JoinTeams(u, anchors).None? <==> JoinFail(u, anchors)
  {
    if "TEAM_NAME" in u.columns && TextColumn(u, "TEAM_NAME") && TeamsTable(anchors).Some? {
      TeamsDeduplicated(anchors);
      TeamMergeFails(MapColumn(u, "TEAM_NAME", StripStar), DropDuplicates(TeamsTable(anchors).value));
    }
  }

  /** When the standings of lines 150-162 fail: a conference table that already has
      a `TEAM_NAME` column beside its team column (the rename raises), or a union
      the team join fails on. */
  predicate StandingsFail(east: Table, west: Table, anchors: seq<Anchor>)
  {
    || ("Eastern Conference" in east.columns && "TEAM_NAME" in east.columns)
    || ("Western Conference" in west.columns && "TEAM_NAME" in west.columns)
    || (UnionStandings(east, west).Some? && JoinFail(UnionStandings(east, west).value, anchors))
  }

  lemma StandingsFails(east: Table, west: Table, anchors: seq<Anchor>)
    ensures NormalizeStandings(east, west, anchors).None? <==> StandingsFail(east, west, anchors)
  {
    TagEastSpec(east);
    TagWestSpec(west);
    UnionStandingsRows(east, west);
    if UnionStandings(east, west).Some? {
      JoinTeamsFails(UnionStandings(east, west).value, anchors);
    }
  }

  /** Output row `o` of the team join joins left row `lrow` with team row `rrow`:
      it carries every cell of `lrow`, their names agree, and it carries the
      abbreviation of `rrow`. */
  predicate JoinedFrom(o: Row, lrow: Row, rrow: Row)
  {
    && "TEAM_NAME" in lrow && "TEAM_NAME" in rrow && "TEAM_ABBREVIATION" in rrow && "TEAM_ABBREVIATION" in o
    && (forall c | c in lrow :: c in o && o[c] == lrow[c])
    && lrow["TEAM_NAME"] == rrow["TEAM_NAME"]
    && o["TEAM_ABBREVIATION"] == rrow["TEAM_ABBREVIATION"]
  }

  /** A union row joined with a team row of the same name. */
  lemma TeamJoinCombine(s: Table, teams: Table, lrow: Row, rrow: Row)
    requires "TEAM_NAME" in s.columns && "TEAM_ABBREVIATION" !in s.columns
    requires teams.columns == TeamColumns
    requires ValidPlan(MakePlan(Inner, s, teams, ["TEAM_NAME"], ["TEAM_NAME"], "_x", "_y"))
    requires lrow in s.rows && rrow in teams.rows && KeysEqual(lrow, ["TEAM_NAME"], rrow, ["TEAM_NAME"])
    ensures JoinedFrom(Combine(MakePlan(Inner, s, teams, ["TEAM_NAME"], ["TEAM_NAME"], "_x", "_y"), lrow, Some(rrow)), lrow, rrow)
  {
    StandingsPlan(s, teams);
    var p := MakePlan(Inner, s, teams, ["TEAM_NAME"], ["TEAM_NAME"], "_x", "_y");
    assert KeyCells(lrow, ["TEAM_NAME"])[0] == KeyCells(rrow, ["TEAM_NAME"])[0];
    CombineAppended(p, lrow, rrow);
    assert "TEAM_ABBREVIATION" in p.kept;
  }

  /** Every row of the team join comes from a left row and a team row with the same
      name. */
  lemma TeamJoinRow(s: Table, teams: Table, o: Row)
    requires "TEAM_NAME" in s.columns && "TEAM_ABBREVIATION" !in s.columns
    requires teams.columns == TeamColumns
    requires Merge(Inner, s, teams, ["TEAM_NAME"], ["TEAM_NAME"], "_x", "_y").Some?
    requires o in Merge(Inner, s, teams, ["TEAM_NAME"], ["TEAM_NAME"], "_x", "_y").value.rows
    ensures exists i, rrow :: 0 <= i < |s.rows| && rrow in teams.rows && JoinedFrom(o, s.rows[i], rrow)
  {
    var p := MakePlan(Inner, s, teams, ["TEAM_NAME"], ["TEAM_NAME"], "_x", "_y");
    InnerJoinOrigin(p, s.rows, o);
    var i, rrow :| && 0 <= i < |s.rows| && rrow in p.right.rows
      && KeysEqual(s.rows[i], p.lk, rrow, p.rk) && o == Combine(p, s.rows[i], Some(rrow));
    TeamJoinCombine(s, teams, s.rows[i], rrow);
  }

  /** What a row of the team join says about its union row `urow` and its anchor. */
  predicate StandingsRowFrom(o: Row, urow: Row, a: Anchor)
  {
    && Readable(a)
    && "TEAM_NAME" in urow && "TEAM_NAME" in o && "TEAM_ABBREVIATION" in o
    && o["TEAM_NAME"] == Some(Str(a.text))
    && o["TEAM_NAME"] == StripStar(urow["TEAM_NAME"])
    && '*' !in a.text
    && o["TEAM_ABBREVIATION"] == Some(Str(Abbreviation(a.href.value).value))
    && (forall c | c in urow && c != "TEAM_NAME" :: c in o && o[c] == urow[c])
  }

  /** A joined row built from a stripped union row and an anchor's team row. */
  lemma StandingsRowOf(u: Table, urow: Row, o: Row, a: Anchor)
    requires "TEAM_NAME" in urow && Readable(a)
    requires JoinedFrom(o, urow["TEAM_NAME" := StripStar(urow["TEAM_NAME"])], AnchorRow(a))
    ensures StandingsRowFrom(o, urow, a)
  {
    var srow := urow["TEAM_NAME" := StripStar(urow["TEAM_NAME"])];
    assert o["TEAM_NAME"] == srow["TEAM_NAME"];
    forall c | c in urow && c != "TEAM_NAME" ensures c in o && o[c] == urow[c] {
      assert c in srow;
    }
  }

  /** Every row of the team join is a union row whose `*`-stripped team name is the
      text of some anchor, joined with that anchor's abbreviation; its other cells
      are those of the union row. */
  lemma JoinTeamsRows(u: Table, anchors: seq<Anchor>, o: Row)
    requires "TEAM_ABBREVIATION" !in u.columns
    requires JoinTeams(u, anchors).Some? && o in JoinTeams(u, anchors).value.rows
    ensures exists i, j :: 0 <= i < |u.rows| && 0 <= j < |anchors| && StandingsRowFrom(o, u.rows[i], anchors[j])
  {
    var s := MapColumn(u, "TEAM_NAME", StripStar);
    var teams := DropDuplicates(TeamsTable(anchors).value);
    TeamsDeduplicated(anchors);
    TeamJoinRow(s, teams, o);
    var i, rrow :| 0 <= i < |s.rows| && rrow in teams.rows && JoinedFrom(o, s.rows[i], rrow);
    var j :| 0 <= j < |anchors| && rrow == AnchorRow(anchors[j]);
    StandingsRowOf(u, u.rows[i], o, anchors[j]);
  }

  /** The same for the standings built from the two conference tables. */
  lemma StandingsRows(east: Table, west: Table, anchors: seq<Anchor>, o: Row)
    requires UnionStandings(east, west).Some?
    requires "TEAM_ABBREVIATION" !in UnionStandings(east, west).value.columns
    requires NormalizeStandings(east, west, anchors).Some?
    requires o in NormalizeStandings(east, west, anchors).value.rows
    ensures var u := UnionStandings(east, west).value;
      exists i, j :: 0 <= i < |u.rows| && 0 <= j < |anchors| && StandingsRowFrom(o, u.rows[i], anchors[j])
  {
    JoinTeamsRows(UnionStandings(east, west).value, anchors, o);
  }

  // ---------------------------------------------------------------------------
  // The team join as a reference definition

  /** A team row with the team name `name`. */
  function SameName(name: Cell): Row -> bool
  {
    (t: Row) => "TEAM_NAME" in t && t["TEAM_NAME"] == name
  }

  /** The rows one union row gives: the row with its name stripped of `*`, once for
      every team pair of that name, in pair order, carrying the pair's abbreviation. */
  function TeamRowsFor(urow: Row, pairs: seq<Row>): seq<Row>
    requires "TEAM_NAME" in urow
    requires forall t | t in pairs :: "TEAM_ABBREVIATION" in t
  {
    var named := urow["TEAM_NAME" := StripStar(urow["TEAM_NAME"])];
    var m := Select(pairs, SameName(named["TEAM_NAME"]));
    seq(|m|, k requires 0 <= k < |m| => named["TEAM_ABBREVIATION" := m[k]["TEAM_ABBREVIATION"]])
  }

  /** Lines 151-162 without the merge machinery: the rows of every union row, in
      union order. */
  function TeamJoinSpec(urows: seq<Row>, pairs: seq<Row>): seq<Row>
    requires forall r | r in urows :: "TEAM_NAME" in r
    requires forall t | t in pairs :: "TEAM_ABBREVIATION" in t
  {
    if urows == [] then []
    else TeamRowsFor(urows[0], pairs) + TeamJoinSpec(urows[1..], pairs)
  }

  /** The reference join distributes over the union rows, so it keeps their order. */
  lemma {:induction false} TeamJoinSpecAppend(a: seq<Row>, b: seq<Row>, pairs: seq<Row>)
    requires forall r | r in a + b :: "TEAM_NAME" in r
    requires forall t | t in pairs :: "TEAM_ABBREVIATION" in t
    ensures TeamJoinSpec(a + b, pairs) == TeamJoinSpec(a, pairs) + TeamJoinSpec(b, pairs)
  {
    if a == [] {
      assert a + b == b;
    } else {
      assert (a + b)[0] == a[0] && (a + b)[1..] == a[1..] + b;
      TeamJoinSpecAppend(a[1..], b, pairs);
    }
  }

  /** Every row a union row gives is in the reference join. */
  lemma {:induction false} TeamJoinSpecHas(urows: seq<Row>, pairs: seq<Row>, i: int, x: Row)
    requires forall r | r in urows :: "TEAM_NAME" in r
    requires forall t | t in pairs :: "TEAM_ABBREVIATION" in t
    requires 0 <= i < |urows| && x in TeamRowsFor(urows[i], pairs)
    ensures x in TeamJoinSpec(urows, pairs)
  {
    if i > 0 {
      assert urows[1..][i - 1] == urows[i];
      TeamJoinSpecHas(urows[1..], pairs, i - 1, x);
    }
  }

  /** On a single key, the matching of the merge is the selection by name. */
  lemma {:induction false} MatchByName(rows: seq<Row>, lrow: Row)
    requires "TEAM_NAME" in lrow
    requires forall t | t in rows :: "TEAM_NAME" in t
    ensures MatchRows(rows, ["TEAM_NAME"], lrow, ["TEAM_NAME"]) == Select(rows, SameName(lrow["TEAM_NAME"]))
  {
    if rows != [] {
      var t := rows[0];
      assert KeyCells(lrow, ["TEAM_NAME"]) == [lrow["TEAM_NAME"]];
      assert KeyCells(t, ["TEAM_NAME"]) == [t["TEAM_NAME"]];
      MatchByName(rows[1..], lrow);
    }
  }

  /** A union row joined with a team row is the row with the team's abbreviation
      added. */
  lemma CombineTeam(p: Plan, lrow: Row, t: Row)
    requires ValidPlan(p) && Fits(lrow, p.lcols) && t in p.right.rows
    requires p.kept == ["TEAM_ABBREVIATION"] && p.out == p.lcols + p.kept
    ensures "TEAM_ABBREVIATION" in t
    ensures Combine(p, lrow, Some(t)) == lrow["TEAM_ABBREVIATION" := t["TEAM_ABBREVIATION"]]
  {
    var o := Combine(p, lrow, Some(t));
    CombineAppendedRight(p, lrow, t, "TEAM_ABBREVIATION");
    forall c | c in lrow ensures c in o && o[c] == lrow[c] {
      CombineAppendedLeft(p, lrow, t, c);
    }
    forall c | c in o ensures c in lrow || c == "TEAM_ABBREVIATION" {
      assert c in p.out;
    }
    MapWithOne(o, lrow, "TEAM_ABBREVIATION", t["TEAM_ABBREVIATION"]);
  }

  /** A map with the keys of `m` and one more, agreeing with `m` on its keys, is `m`
      updated at the new key. */
  lemma MapWithOne(o: Row, m: Row, key: string, v: Cell)
    requires forall c | c in o :: c in m || c == key
    requires key in o && o[key] == v
    requires forall c | c in m :: c in o && o[c] == m[c]
    ensures o == m[key := v]
  {
    assert forall c :: c in o <==> c in m[key := v];
  }

  /** The block of one union row is the rows the reference join gives for it. */
  lemma TeamBlock(p: Plan, srow: Row, urow: Row)
    requires ValidPlan(p) && p.how == Inner && Fits(srow, p.lcols)
    requires p.kept == ["TEAM_ABBREVIATION"] && p.out == p.lcols + p.kept
    requires p.lk == ["TEAM_NAME"] && p.rk == ["TEAM_NAME"]
    requires forall t | t in p.right.rows :: "TEAM_ABBREVIATION" in t && "TEAM_NAME" in t
    requires "TEAM_NAME" in urow && srow == urow["TEAM_NAME" := StripStar(urow["TEAM_NAME"])]
    ensures Block(p, srow) == TeamRowsFor(urow, p.right.rows)
  {
    var m := Matches(p, srow);
    MatchByName(p.right.rows, srow);
    var b := Block(p, srow);
    var e := TeamRowsFor(urow, p.right.rows);
    assert |b| == |m| == |e|;
    forall k | 0 <= k < |m| ensures b[k] == e[k] {
      assert m[k] in m;
      CombineTeam(p, srow, m[k]);
    }
  }

  /** The merge of the standings rows is the reference join of the union rows. */
  lemma {:induction false} TeamMergeRows(p: Plan, srows: seq<Row>, urows: seq<Row>)
    requires ValidPlan(p) && p.how == Inner && AllFit(srows, p.lcols)
    requires p.kept == ["TEAM_ABBREVIATION"] && p.out == p.lcols + p.kept
    requires p.lk == ["TEAM_NAME"] && p.rk == ["TEAM_NAME"]
    requires forall t | t in p.right.rows :: "TEAM_ABBREVIATION" in t && "TEAM_NAME" in t
    requires forall r | r in urows :: "TEAM_NAME" in r
    requires |srows| == |urows|
    requires forall k | 0 <= k < |urows| :: srows[k] == urows[k]["TEAM_NAME" := StripStar(urows[k]["TEAM_NAME"])]
    ensures MergeRows(p, srows) == TeamJoinSpec(urows, p.right.rows)
  {
    if srows != [] {
      assert urows[0] in urows;
      TeamBlock(p, srows[0], urows[0]);
      TeamMergeRows(p, srows[1..], urows[1..]);
    }
  }

  /** Every deduplicated team pair has both columns. */
  lemma PairsHaveColumns(anchors: seq<Anchor>)
    requires TeamsTable(anchors).Some?
    ensures forall t | t in Dedup(TeamsTable(anchors).value.rows) :: "TEAM_ABBREVIATION" in t && "TEAM_NAME" in t
  {
    var rows := TeamsTable(anchors).value.rows;
    forall t | t in Dedup(rows) ensures "TEAM_ABBREVIATION" in t && "TEAM_NAME" in t {
      assert t in rows;
    }
  }

  /** The team join is the reference join of the union rows with the deduplicated
      pairs: each union row, in union order, once per distinct pair of its stripped
      name (the pairs have no repeats by `TeamsDeduplicated`). */
  lemma JoinTeamsIs(u: Table, anchors: seq<Anchor>)
    requires "TEAM_ABBREVIATION" !in u.columns
    requires JoinTeams(u, anchors).Some?
    ensures "TEAM_NAME" in u.columns && TeamsTable(anchors).Some?
    ensures forall t | t in Dedup(TeamsTable(anchors).value.rows) :: "TEAM_ABBREVIATION" in t && "TEAM_NAME" in t
    ensures forall r | r in u.rows :: "TEAM_NAME" in r
    ensures JoinTeams(u, anchors).value.rows == TeamJoinSpec(u.rows, Dedup(TeamsTable(anchors).value.rows))
  {
    var s := MapColumn(u, "TEAM_NAME", StripStar);
    var teams := DropDuplicates(TeamsTable(anchors).value);
    PairsHaveColumns(anchors);
    StandingsPlan(s, teams);
    var p := MakePlan(Inner, s, teams, ["TEAM_NAME"], ["TEAM_NAME"], "_x", "_y");
    TeamMergeRows(p, s.rows, u.rows);
  }

  /** Conversely, a union row whose stripped name is the text of an anchor is in the
      final standings, joined with that anchor's abbreviation. */
  lemma JoinTeamsComplete(u: Table, anchors: seq<Anchor>, i: int, j: int)
    requires "TEAM_ABBREVIATION" !in u.columns && "TEAM_NAME" in u.columns
    requires JoinTeams(u, anchors).Some?
    requires 0 <= i < |u.rows| && 0 <= j < |anchors|
    requires StripStar(u.rows[i]["TEAM_NAME"]) == Some(Str(anchors[j].text))
    ensures exists o :: o in JoinTeams(u, anchors).value.rows && StandingsRowFrom(o, u.rows[i], anchors[j])
  {
    JoinTeamsIs(u, anchors);
    TeamsDeduplicated(anchors);
    var pairs := Dedup(TeamsTable(anchors).value.rows);
    var urow := u.rows[i];
    assert urow in u.rows;
    var o := PairRow(urow, pairs, anchors[j]);
    TeamJoinSpecHas(u.rows, pairs, i, o);
  }

  /** The row the reference join gives for a union row and the pair of an anchor
      whose text is the row's stripped name. */
  lemma PairRow(urow: Row, pairs: seq<Row>, a: Anchor) returns (o: Row)
    requires "TEAM_NAME" in urow && "TEAM_ABBREVIATION" !in urow
    requires forall t | t in pairs :: "TEAM_ABBREVIATION" in t
    requires Readable(a) && AnchorRow(a) in pairs
    requires StripStar(urow["TEAM_NAME"]) == Some(Str(a.text))
    ensures o in TeamRowsFor(urow, pairs) && StandingsRowFrom(o, urow, a)
  {
    var named := urow["TEAM_NAME" := StripStar(urow["TEAM_NAME"])];
    var t := AnchorRow(a);
    assert SameName(named["TEAM_NAME"])(t);
    var m := Select(pairs, SameName(named["TEAM_NAME"]));
    assert t in m;
    var k :| 0 <= k < |m| && m[k] == t;
    o := named["TEAM_ABBREVIATION" := t["TEAM_ABBREVIATION"]];
    assert o == TeamRowsFor(urow, pairs)[k];
    assert '*' !in a.text;
  }

  // ---------------------------------------------------------------------------
  // What the four extractors return

  /** The value of an `extract_*` function for a page: `None` after an HTTP error
      or any other exception, the empty table when the page lacks the table, and
      the normalized table otherwise (`None` when normalizing raises). */
  function Extract(p: Page<Option<Table>>, normalize: Table -> Option<Table>): Option<Table>
  {
    match p
    case HttpError => None
    case Failed => None
    case Loaded(None) => Some(Empty())
    case Loaded(Some(raw)) => normalize(raw)
  }

  /** `extract_rookies_data` (lines 13-45). */
  function ExtractRookies(p: Page<Option<Table>>): Option<Table>
  {
    Extract(p, NormalizeRookies)
  }

  /** `extract_roy_awards` (lines 48-75): the parsed table as it is. */
  function ExtractRoy(p: Page<Option<Table>>): Option<Table>
  {
    Extract(p, (t: Table) => Some(t))
  }

  /** `extract_advanced_stats` (lines 79-117). */
  function ExtractAdvanced(p: Page<Option<Table>>): Option<Table>
  {
    Extract(p, NormalizeAdvanced)
  }

  /** `extract_standings` (lines 121-176): the empty table unless both conference
      tables are found. */
  function ExtractStandings(p: Page<StandingsPage>): Option<Table>
  {
    match p
    case HttpError => None
    case Failed => None
    case Loaded(page) =>
      if page.east.None? || page.west.None? then Some(Empty())
      else NormalizeStandings(page.east.value, page.west.value, page.anchors)
  }

  /** The page lacks the table: the empty table, not `None`. */
  predicate Missing(p: Page<Option<Table>>)
  {
    p.Loaded? && p.content.None?
  }

  /** The rookies extractor returns `None` exactly after a failed request or a
      failing normalization, and the empty table for a page without the table. */
  lemma ExtractRookiesOutcome(p: Page<Option<Table>>)
    ensures ExtractRookies(p).None? <==>
      p.HttpError? || p.Failed? || (p.Loaded? && p.content.Some? && RookiesFail(p.content.value))
    ensures Missing(p) ==> ExtractRookies(p) == Some(Empty())
  {
    if p.Loaded? && p.content.Some? {
      RookiesNormalized(p.content.value);
    }
  }

  /** The award extractor returns `None` exactly after a failed request, the empty
      table for a page without the table and the parsed table otherwise. */
  lemma ExtractRoyOutcome(p: Page<Option<Table>>)
    ensures ExtractRoy(p).None? <==> p.HttpError? || p.Failed?
    ensures Missing(p) ==> ExtractRoy(p) == Some(Empty())
    ensures p.Loaded? && p.content.Some? ==> ExtractRoy(p) == p.content
  {
  }

  /** The advanced-stats extractor returns `None` exactly after a failed request or
      a failing normalization, and the empty table for a page without the table. */
  lemma ExtractAdvancedOutcome(p: Page<Option<Table>>)
    ensures ExtractAdvanced(p).None? <==>
      p.HttpError? || p.Failed? || (p.Loaded? && p.content.Some? && AdvancedFail(p.content.value))
    ensures Missing(p) ==> ExtractAdvanced(p) == Some(Empty())
  {
    if p.Loaded? && p.content.Some? {
      AdvancedFails(p.content.value);
    }
  }

  /** The standings extractor returns `None` after a failed request, and the empty
      table when either conference table is missing, whatever the anchors. */
  lemma ExtractStandingsOutcome(p: Page<StandingsPage>)
    ensures p.HttpError? || p.Failed? ==> ExtractStandings(p).None?
    ensures p.Loaded? && (p.content.east.None? || p.content.west.None?) ==> ExtractStandings(p) == Some(Empty())
    ensures p.Loaded? && p.content.east.Some? && p.content.west.Some? ==>
      ExtractStandings(p) == NormalizeStandings(p.content.east.value, p.content.west.value, p.content.anchors)
    ensures ExtractStandings(p).None? <==>
      || p.HttpError? || p.Failed?
      || (p.Loaded? && p.content.east.Some? && p.content.west.Some? &&
          StandingsFail(p.content.east.value, p.content.west.value, p.content.anchors))
  {
    if p.Loaded? && p.content.east.Some? && p.content.west.Some? {
      StandingsFails(p.content.east.value, p.content.west.value, p.content.anchors);
    }
  }
}
