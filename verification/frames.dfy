/** The relational core the scraper relies on, modelled on values: a table is an
    ordered list of distinct column names plus an ordered sequence of rows, each row
    mapping every column name to a cell that is missing or holds a string or an
    integer. The operations are the pandas operations the scraper uses. */
module Frames {
  import opened Wrappers
  import opened Strings

  /** A cell value as parsed from a page: text or a whole number. */
  datatype Value = Str(s: string) | Int(i: int)

  /** A cell; `None` is pandas' missing value (NaN). */
  type Cell = Option<Value>

  type Row = map<string, Cell>

  datatype Frame = Frame(columns: seq<string>, rows: seq<Row>)

  function Names(cols: seq<string>): (r: set<string>)
    ensures forall c :: c in r <==> c in cols
  {
    set c | c in cols
  }

  predicate NoDuplicates<T(==)>(s: seq<T>)
  {
    forall i, j | 0 <= i < j < |s| :: s[i] != s[j]
  }

  /** A row has exactly the table's columns. */
  predicate Fits(r: Row, cols: seq<string>)
  {
    r.Keys == Names(cols)
  }

  /** Every row fits `cols`. */
  predicate AllFit(rows: seq<Row>, cols: seq<string>)
  {
    forall k | 0 <= k < |rows| :: Fits(rows[k], cols)
  }

  predicate WellFormed(f: Frame)
  {
    && NoDuplicates(f.columns)
    && (forall k | 0 <= k < |f.rows| :: Fits(f.rows[k], f.columns))
    && (forall r | r in f.rows :: Fits(r, f.columns))
  }

  /** The tables the model works on: distinct column names and rows that fit them. */
  type Table = f: Frame | WellFormed(f) witness Frame([], [])

  /** `pd.DataFrame()`: no columns, no rows. */
  function Empty(): Table
  {
    Frame([], [])
  }

  // ---------------------------------------------------------------------------
  // Row selection: boolean indexing `df[mask]`

  /** The rows satisfying `keep`, in their original order. */
  function Select(rows: seq<Row>, keep: Row -> bool): (r: seq<Row>)
    ensures |r| <= |rows|
    ensures forall x :: x in r <==> x in rows && keep(x)
  {
    if rows == [] then []
    else (if keep(rows[0]) then [rows[0]] else []) + Select(rows[1..], keep)
  }

  /** Selection from rows without repeats has no repeats. */
  lemma {:induction false} SelectDistinct(rows: seq<Row>, keep: Row -> bool)
    requires NoDuplicates(rows)
    ensures NoDuplicates(Select(rows, keep))
  {
    if rows != [] {
      assert NoDuplicates(rows[1..]) && rows[0] !in rows[1..];
      SelectDistinct(rows[1..], keep);
    }
  }

  /** Selection distributes over concatenation, so the relative order of kept rows is
      the original order. */
  lemma {:induction false} SelectAppend(a: seq<Row>, b: seq<Row>, keep: Row -> bool)
    ensures Select(a + b, keep) == Select(a, keep) + Select(b, keep)
  {
    if a == [] {
      assert a + b == b;
    } else {
      assert (a + b)[0] == a[0] && (a + b)[1..] == a[1..] + b;
      SelectAppend(a[1..], b, keep);
    }
  }

  /** Selection keeps every row when every row passes. */
  lemma {:induction false} SelectAll(rows: seq<Row>, keep: Row -> bool)
    requires forall k | 0 <= k < |rows| :: keep(rows[k])
    ensures Select(rows, keep) == rows
  {
    if rows != [] {
      SelectAll(rows[1..], keep);
    }
  }

  /** Selecting by `p` and then by a stricter `q` is selecting by `q`. */
  lemma {:induction false} SelectNarrow(rows: seq<Row>, p: Row -> bool, q: Row -> bool)
    requires forall x | x in rows :: q(x) ==> p(x)
    ensures Select(Select(rows, p), q) == Select(rows, q)
  {
    if rows != [] {
      SelectNarrow(rows[1..], p, q);
      var head := if p(rows[0]) then [rows[0]] else [];
      SelectAppend(head, Select(rows[1..], p), q);
    }
  }

  function FilterRows(t: Table, keep: Row -> bool): Table
  {
    Frame(t.columns, Select(t.rows, keep))
  }

  // ---------------------------------------------------------------------------
  // Renaming one column: `df.rename(columns={from: to})`

  function RenameName(c: string, from: string, to: string): string
  {
    if c == from then to else c
  }

  function RenameKey(r: Row, from: string, to: string): Row
    requires from in r
  {
    (r - {from})[to := r[from]]
  }

  lemma RenamedColumns(cols: seq<string>, from: string, to: string, renamed: seq<string>)
    requires NoDuplicates(cols) && from in cols && to !in cols
    requires |renamed| == |cols|
    requires forall i | 0 <= i < |cols| :: renamed[i] == RenameName(cols[i], from, to)
    ensures NoDuplicates(renamed)
    ensures Names(renamed) == Names(cols) - {from} + {to}
    ensures forall c | c in cols :: RenameName(c, from, to) in renamed
    ensures forall x | x != from && x != to :: x in renamed <==> x in cols
  {
    forall x | x in Names(cols) - {from} + {to} ensures x in Names(renamed) {
      if x == to {
        var i :| 0 <= i < |cols| && cols[i] == from;
        assert renamed[i] == to;
      } else {
        var i :| 0 <= i < |cols| && cols[i] == x;
        assert renamed[i] == x;
      }
    }
  }

  lemma RenamedRows(t: Table, from: string, to: string, cols: seq<string>, rows: seq<Row>)
    requires from in t.columns && to !in t.columns
    requires Names(cols) == Names(t.columns) - {from} + {to}
    requires |rows| == |t.rows| && forall k | 0 <= k < |t.rows| :: rows[k] == RenameKey(t.rows[k], from, to)
    ensures forall k | 0 <= k < |rows| :: Fits(rows[k], cols)
    ensures forall r | r in rows :: Fits(r, cols)
    ensures forall k, c | 0 <= k < |t.rows| && c in t.columns ::
      RenameName(c, from, to) in rows[k] && rows[k][RenameName(c, from, to)] == t.rows[k][c]
  {
    forall k | 0 <= k < |rows| ensures Fits(rows[k], cols) {
      assert t.rows[k] in t.rows;
    }
  }

  /** Renames column `from` to `to`. A missing `from` leaves the table as it is; a `to`
      that already names another column would give pandas two columns of one name,
      which the model reports as a failure. */
  function RenameColumn(t: Table, from: string, to: string): (r: Option<Table>)
    ensures r.None? <==> from in t.columns && to in t.columns && from != to
    ensures r.Some? ==> |r.value.columns| == |t.columns| && |r.value.rows| == |t.rows|
    ensures r.Some? ==> forall i | 0 <= i < |t.columns| ::
      r.value.columns[i] == RenameName(t.columns[i], from, to)
    ensures r.Some? ==> forall c | c in t.columns :: RenameName(c, from, to) in r.value.columns
    ensures r.Some? ==> forall x | x != from && x != to :: x in r.value.columns <==> x in t.columns
    ensures r.Some? ==> forall k, c | 0 <= k < |t.rows| && c in t.columns ::
      r.value.rows[k][RenameName(c, from, to)] == t.rows[k][c]
  {
    if from !in t.columns || from == to then
      assert forall c | c in t.columns :: RenameName(c, from, to) == c;
      Some(t)
    else if to in t.columns then None
    else
      var cols := seq(|t.columns|, i requires 0 <= i < |t.columns| => RenameName(t.columns[i], from, to));
      var rows := seq(|t.rows|, k requires 0 <= k < |t.rows| => RenameKey(t.rows[k], from, to));
      RenamedColumns(t.columns, from, to, cols);
      RenamedRows(t, from, to, cols, rows);
      Some(Frame(cols, rows))
  }

  /** A rename moves the cells of `from` to `to` and leaves every other column, with
      its cells, in place. */
  lemma RenameColumnCells(t: Table, from: string, to: string)
    requires RenameColumn(t, from, to).Some?
    ensures var r := RenameColumn(t, from, to).value;
      && |r.rows| == |t.rows|
      && (from in t.columns ==> to in r.columns && forall k | 0 <= k < |t.rows| :: r.rows[k][to] == t.rows[k][from])
      && (forall c | c in t.columns && c != from && c != to :: c in r.columns)
      && (forall k, c | 0 <= k < |t.rows| && c in t.columns && c != from && c != to :: r.rows[k][c] == t.rows[k][c])
  {
    var r := RenameColumn(t, from, to).value;
    if from in t.columns {
      assert RenameName(from, from, to) == to;
    }
    forall c | c in t.columns && c != from && c != to ensures c in r.columns {
      assert RenameName(c, from, to) == c;
    }
    forall k, c | 0 <= k < |t.rows| && c in t.columns && c != from && c != to ensures r.rows[k][c] == t.rows[k][c] {
      assert RenameName(c, from, to) == c;
    }
  }

  // ---------------------------------------------------------------------------
  // Column assignment: `df[col] = v` and `df[col] = f(df[col])`

  /** `df[col] = v` for a scalar `v`: overwrites an existing column in place, or
      appends a new last column. */
  function SetColumn(t: Table, col: string, v: Cell): (r: Table)
    ensures r.columns == if col in t.columns then t.columns else t.columns + [col]
    ensures |r.rows| == |t.rows|
    ensures forall k | 0 <= k < |t.rows| :: r.rows[k] == t.rows[k][col := v]
  {
    var cols := if col in t.columns then t.columns else t.columns + [col];
    assert Names(cols) == Names(t.columns) + {col};
    Frame(cols, seq(|t.rows|, k requires 0 <= k < |t.rows| => t.rows[k][col := v]))
  }

  /** `df[col] = df[col].map(f)`: every cell of `col` is replaced by its image. */
  function MapColumn(t: Table, col: string, f: Cell -> Cell): (r: Table)
    requires col in t.columns
    ensures r.columns == t.columns && |r.rows| == |t.rows|
    ensures forall k | 0 <= k < |t.rows| :: r.rows[k] == t.rows[k][col := f(t.rows[k][col])]
  {
    Frame(t.columns, seq(|t.rows|, k requires 0 <= k < |t.rows| => t.rows[k][col := f(t.rows[k][col])]))
  }

  /** `df[col].fillna(v)` written back to `col`; a missing column raises `KeyError`. */
  function FillNa(t: Table, col: string, v: Cell): (r: Option<Table>)
    ensures r.None? <==> col !in t.columns
    ensures r.Some? ==> r.value.columns == t.columns && |r.value.rows| == |t.rows|
    ensures r.Some? ==> forall k | 0 <= k < |t.rows| ::
      && (forall c | c in t.columns && c != col :: r.value.rows[k][c] == t.rows[k][c])
      && r.value.rows[k][col] == if t.rows[k][col].None? then v else t.rows[k][col]
  {
    if col !in t.columns then None
    else Some(MapColumn(t, col, (x: Cell) => if x.None? then v else x))
  }

  // ---------------------------------------------------------------------------
  // Dropping columns: `df.drop(columns=...)`

  /** The names of `cols` not in `drop`, in their original order. */
  function Without(cols: seq<string>, drop: set<string>): (r: seq<string>)
    ensures Names(r) == Names(cols) - drop
    ensures NoDuplicates(cols) ==> NoDuplicates(r)
  {
    if cols == [] then []
    else
      var rest := Without(cols[1..], drop);
      assert Names(cols) == {cols[0]} + Names(cols[1..]);
      if cols[0] in drop then rest
      else
        var r := [cols[0]] + rest;
        assert NoDuplicates(cols) ==> NoDuplicates(cols[1..]) && cols[0] !in cols[1..];
        assert forall c | c in rest :: c in cols[1..];
        r
  }

  /** Dropping distributes over concatenation: the kept names stay in order. */
  lemma {:induction false} WithoutAppend(a: seq<string>, b: seq<string>, drop: set<string>)
    ensures Without(a + b, drop) == Without(a, drop) + Without(b, drop)
  {
    if a == [] {
      assert a + b == b;
    } else {
      assert (a + b)[0] == a[0] && (a + b)[1..] == a[1..] + b;
      WithoutAppend(a[1..], b, drop);
    }
  }

  /** Dropping a name that is not there changes nothing. */
  lemma {:induction false} WithoutIgnore(cols: seq<string>, drop: set<string>, x: string)
    requires x !in cols
    ensures Without(cols, drop + {x}) == Without(cols, drop)
  {
    if cols != [] {
      WithoutIgnore(cols[1..], drop, x);
    }
  }

  /** Removes every column named in `drop` (absent names are ignored). */
  function DropSet(t: Table, drop: set<string>): (r: Table)
    ensures r.columns == Without(t.columns, drop) && |r.rows| == |t.rows|
    ensures forall k | 0 <= k < |t.rows| :: r.rows[k] == t.rows[k] - drop
  {
    Frame(Without(t.columns, drop), seq(|t.rows|, k requires 0 <= k < |t.rows| => t.rows[k] - drop))
  }

  /** `df.drop(columns=drop)`: raises `KeyError` when a name is not a column. */
  function DropColumns(t: Table, drop: seq<string>): (r: Option<Table>)
    ensures r.None? <==> exists c :: c in drop && c !in t.columns
    ensures r.Some? ==> r.value == DropSet(t, Names(drop))
  {
    if exists c :: c in drop && c !in t.columns then None
    else Some(DropSet(t, Names(drop)))
  }

  /** Dropping `[c for c in df.columns if sub in c]`: never fails, leaves no column whose
      name contains `sub`, and keeps every other column with its cells. */
  function DropMatching(t: Table, sub: string): (r: Table)
    ensures forall c | c in r.columns :: c in t.columns && !Contains(c, sub)
    ensures forall c | c in t.columns && !Contains(c, sub) :: c in r.columns
    ensures |r.rows| == |t.rows|
    ensures forall k, c | 0 <= k < |t.rows| && c in r.columns :: r.rows[k][c] == t.rows[k][c]
  {
    var d := set c | c in t.columns && Contains(c, sub);
    var r := DropSet(t, d);
    assert Names(r.columns) == Names(t.columns) - d;
    r
  }

  // ---------------------------------------------------------------------------
  // `df.drop_duplicates()`: first occurrences kept, in order

  function Dedup(rows: seq<Row>): (r: seq<Row>)
    ensures NoDuplicates(r)
    ensures forall x :: x in r <==> x in rows
    ensures |r| <= |rows|
  {
    if rows == [] then []
    else
      var init := Dedup(rows[..|rows| - 1]);
      var last := rows[|rows| - 1];
      assert rows == rows[..|rows| - 1] + [last];
      if last in init then init else init + [last]
  }

  /** One more row is kept exactly when it has not occurred before: the first
      occurrences, in input order. */
  lemma DedupAppend(rows: seq<Row>, x: Row)
    ensures Dedup(rows + [x]) == Dedup(rows) + (if x in rows then [] else [x])
  {
    assert (rows + [x])[..|rows|] == rows;
  }

  /** Rows without repeats are left as they are. */
  lemma {:induction false} DedupDistinct(rows: seq<Row>)
    requires NoDuplicates(rows)
    ensures Dedup(rows) == rows
  {
    if rows != [] {
      var init := rows[..|rows| - 1];
      assert rows == init + [rows[|rows| - 1]];
      DedupDistinct(init);
    }
  }

  function DropDuplicates(t: Table): Table
  {
    Frame(t.columns, Dedup(t.rows))
  }

  // ---------------------------------------------------------------------------
  // Vertical concatenation: `pd.concat(tables)`

  /** Appends the names of `more` that `cols` lacks, in order of appearance. */
  function AddNew(cols: seq<string>, more: seq<string>): (r: seq<string>)
    ensures Names(r) == Names(cols) + Names(more)
    ensures NoDuplicates(cols) ==> NoDuplicates(r)
    ensures |cols| <= |r| && r[..|cols|] == cols
    decreases |more|
  {
    if more == [] then cols
    else
      var next := if more[0] in cols then cols else cols + [more[0]];
      assert Names(more) == {more[0]} + Names(more[1..]);
      assert Names(next) == Names(cols) + {more[0]};
      var r := AddNew(next, more[1..]);
      assert r[..|cols|] == r[..|next|][..|cols|];
      r
  }

  /** Adding the names of a list without repeats appends, in their order, those not
      already present. */
  lemma {:induction false} AddNewIs(cols: seq<string>, more: seq<string>)
    requires NoDuplicates(more)
    ensures AddNew(cols, more) == cols + Without(more, Names(cols))
    decreases |more|
  {
    if more != [] {
      var m := more[0];
      assert NoDuplicates(more[1..]);
      if m in cols {
        AddNewIs(cols, more[1..]);
      } else {
        AddNewIs(cols + [m], more[1..]);
        assert Names(cols + [m]) == Names(cols) + {m};
        assert m !in more[1..];
        WithoutIgnore(more[1..], Names(cols), m);
      }
    }
  }

  /** The union of the tables' columns in order of first appearance, as pandas builds it. */
  function UnionColumns(ts: seq<Table>): (r: seq<string>)
    ensures NoDuplicates(r)
    ensures forall i, c | 0 <= i < |ts| && c in ts[i].columns :: c in r
    ensures forall c | c in r :: exists i :: 0 <= i < |ts| && c in ts[i].columns
  {
    if ts == [] then []
    else
      var init := UnionColumns(ts[..|ts| - 1]);
      var r := AddNew(init, ts[|ts| - 1].columns);
      assert forall i | 0 <= i < |ts| - 1 :: ts[..|ts| - 1][i] == ts[i];
      r
  }

  /** One more table appends its new names, in its own column order. */
  lemma UnionColumnsAppend(ts: seq<Table>, t: Table)
    ensures UnionColumns(ts + [t]) == UnionColumns(ts) + Without(t.columns, Names(UnionColumns(ts)))
  {
    assert (ts + [t])[..|ts|] == ts;
    AddNewIs(UnionColumns(ts), t.columns);
  }

  /** A row widened to `cols`, missing cells filled with NaN. */
  function Pad(r: Row, cols: seq<string>): (p: Row)
    ensures Fits(p, cols)
    ensures forall c | c in cols :: p[c] == if c in r then r[c] else None
  {
    map c | c in Names(cols) :: if c in r then r[c] else None
  }

  /** A row that already has exactly the columns `cols` is unchanged by padding, so
      concatenating tables with the same columns keeps their rows as they are. */
  lemma PadFitting(r: Row, cols: seq<string>)
    requires Fits(r, cols)
    ensures Pad(r, cols) == r
  {
    assert forall c :: c in Pad(r, cols) <==> c in r;
  }

  function PadAll(rows: seq<Row>, cols: seq<string>): (r: seq<Row>)
    ensures |r| == |rows|
    ensures forall k | 0 <= k < |rows| :: r[k] == Pad(rows[k], cols)
  {
    seq(|rows|, k requires 0 <= k < |rows| => Pad(rows[k], cols))
  }

  /** The rows of the tables in order, each widened to `cols`. */
  function ConcatRows(ts: seq<Table>, cols: seq<string>): (r: seq<Row>)
    ensures AllFit(r, cols)
  {
    if ts == [] then []
    else ConcatRows(ts[..|ts| - 1], cols) + PadAll(ts[|ts| - 1].rows, cols)
  }

  /** Total number of rows of the tables. */
  function TotalRows(ts: seq<Table>): nat
  {
    if ts == [] then 0 else TotalRows(ts[..|ts| - 1]) + |ts[|ts| - 1].rows|
  }

  /** One more table adds its rows to the total. */
  lemma TotalRowsAppend(ts: seq<Table>, t: Table)
    ensures TotalRows(ts + [t]) == TotalRows(ts) + |t.rows|
  {
    assert (ts + [t])[..|ts|] == ts;
  }

  /** `pd.concat(ts)`: raises `ValueError` ("No objects to concatenate") on an empty
      list; otherwise the rows of every table in list order under the union of the
      columns. */
  function Concat(ts: seq<Table>): (r: Option<Table>)
    ensures r.None? <==> ts == []
    ensures r.Some? ==> r.value.columns == UnionColumns(ts)
    ensures r.Some? ==> r.value.rows == ConcatRows(ts, UnionColumns(ts))
  {
    if ts == [] then None
    else Some(Frame(UnionColumns(ts), ConcatRows(ts, UnionColumns(ts))))
  }

  /** The concatenation has exactly as many rows as the tables together. */
  lemma {:induction false} ConcatRowCount(ts: seq<Table>, cols: seq<string>)
    ensures |ConcatRows(ts, cols)| == TotalRows(ts)
  {
    if ts != [] {
      ConcatRowCount(ts[..|ts| - 1], cols);
    }
  }

  /** Concatenating two tables puts all rows of the first before all rows of the
      second, each cell carried over (NaN where a table lacks the column). */
  lemma ConcatTwo(a: Table, b: Table)
    ensures Concat([a, b]).Some?
    ensures var r := Concat([a, b]).value;
      && |r.rows| == |a.rows| + |b.rows|
      && (forall c | c in a.columns || c in b.columns :: c in r.columns)
      && (forall k | 0 <= k < |a.rows| :: r.rows[k] == Pad(a.rows[k], r.columns))
      && (forall k | 0 <= k < |b.rows| :: r.rows[|a.rows| + k] == Pad(b.rows[k], r.columns))
  {
    var cols := UnionColumns([a, b]);
    assert [a, b][0] == a && [a, b][1] == b;
    assert [a, b][..1] == [a];
    assert [a][..0] == [];
    assert ConcatRows([a], cols) == PadAll(a.rows, cols);
  }

  /** Cell `c` of row `k` of a two-table concatenation is the cell of the row it
      comes from. */
  lemma ConcatTwoCell(a: Table, b: Table, k: int, c: string)
    requires 0 <= k < |a.rows| + |b.rows|
    requires if k < |a.rows| then c in a.columns else c in b.columns
    ensures Concat([a, b]).Some?
    ensures var r := Concat([a, b]).value;
      && |r.rows| == |a.rows| + |b.rows| && c in r.columns
      && r.rows[k][c] == if k < |a.rows| then a.rows[k][c] else b.rows[k - |a.rows|][c]
  {
    ConcatTwo(a, b);
    var r := Concat([a, b]).value;
    if k < |a.rows| {
      assert c in a.rows[k];
    } else {
      var j := k - |a.rows|;
      assert r.rows[|a.rows| + j] == Pad(b.rows[j], r.columns);
      assert c in b.rows[j];
    }
  }
}
