/** `pd.merge(left, right, how, left_on, right_on, suffixes)` for the two kinds of
    join the scraper uses: left joins and inner joins on equality of key cells
    (pandas matches a missing key with a missing key, and so does the model). */
module Merging {
  import opened Wrappers
  import opened Frames

  datatype How = Left | Inner

  /** Assigns `vals[i]` to `cols[i]`; on distinct names the row holds exactly those cells. */
  function Zip(cols: seq<string>, vals: seq<Cell>): (r: Row)
    requires |cols| == |vals|
    ensures Fits(r, cols)
    ensures NoDuplicates(cols) ==> forall i | 0 <= i < |cols| :: r[cols[i]] == vals[i]
  {
    if cols == [] then map[]
    else
      var rest := Zip(cols[1..], vals[1..]);
      assert Names(cols) == {cols[0]} + Names(cols[1..]);
      assert NoDuplicates(cols) ==> NoDuplicates(cols[1..]) && forall i | 1 <= i < |cols| :: cols[i] == cols[1..][i - 1];
      rest[cols[0] := vals[0]]
  }

  /** Key names equal at the same position on both sides: pandas keeps a single
      (left) column for each of them. */
  function SharedKeys(lk: seq<string>, rk: seq<string>): set<string>
  {
    set i | 0 <= i < |lk| && i < |rk| && lk[i] == rk[i] :: lk[i]
  }

  /** The right-hand columns that reach the result. */
  function RightKept(right: Table, lk: seq<string>, rk: seq<string>): seq<string>
  {
    Without(right.columns, SharedKeys(lk, rk))
  }

  /** Names on both sides (outside the shared keys): these receive the suffixes. */
  function Overlap(lcols: seq<string>, kept: seq<string>): set<string>
  {
    set c | c in lcols && c in kept
  }

  function Suffixed(cols: seq<string>, ov: set<string>, suffix: string): (r: seq<string>)
    ensures |r| == |cols|
    ensures forall i | 0 <= i < |cols| :: r[i] == if cols[i] in ov then cols[i] + suffix else cols[i]
    ensures suffix == "" ==> r == cols
    ensures (forall c | c in cols :: c !in ov) ==> r == cols
  {
    var r := seq(|cols|, i requires 0 <= i < |cols| => if cols[i] in ov then cols[i] + suffix else cols[i]);
    assert suffix == "" ==> forall i | 0 <= i < |cols| :: cols[i] + suffix == cols[i];
    r
  }

  /** Everything a merge needs besides the left rows. */
  datatype Plan = Plan(how: How, right: Table, lk: seq<string>, rk: seq<string>,
                       lcols: seq<string>, kept: seq<string>, out: seq<string>)

  predicate ValidPlan(p: Plan)
  {
    && |p.lk| == |p.rk|
    && NoDuplicates(p.out)
    && |p.out| == |p.lcols| + |p.kept|
    && (forall c | c in p.kept :: c in p.right.columns)
    && (forall c | c in p.rk :: c in p.right.columns)
    && (forall c | c in p.lk :: c in p.lcols)
  }

  function MakePlan(how: How, left: Table, right: Table, lk: seq<string>, rk: seq<string>,
                    lsuf: string, rsuf: string): Plan
  {
    var kept := RightKept(right, lk, rk);
    var ov := Overlap(left.columns, kept);
    Plan(how, right, lk, rk, left.columns, kept, Suffixed(left.columns, ov, lsuf) + Suffixed(kept, ov, rsuf))
  }

  /** The key cells of a row, in key order (a key the row lacks reads as missing;
      in a merge that does not fail every key is a column). */
  function KeyCells(r: Row, keys: seq<string>): seq<Cell>
  {
    seq(|keys|, i requires 0 <= i < |keys| => if keys[i] in r then r[keys[i]] else None)
  }

  /** A left row and a right row match when their key cells are equal pairwise. */
  predicate KeysEqual(lrow: Row, lk: seq<string>, rrow: Row, rk: seq<string>)
  {
    KeyCells(lrow, lk) == KeyCells(rrow, rk)
  }

  /** The rows of `rows` whose keys match those of `lrow`, in order. */
  function MatchRows(rows: seq<Row>, rk: seq<string>, lrow: Row, lk: seq<string>): (r: seq<Row>)
    ensures |r| <= |rows|
    ensures forall x :: x in r <==> x in rows && KeysEqual(lrow, lk, x, rk)
    ensures (forall x | x in rows :: !KeysEqual(lrow, lk, x, rk)) ==> r == []
  {
    if rows == [] then []
    else (if KeysEqual(lrow, lk, rows[0], rk) then [rows[0]] else []) + MatchRows(rows[1..], rk, lrow, lk)
  }

  /** The test a right row passes to match `lrow`. */
  function Matching(lrow: Row, lk: seq<string>, rk: seq<string>): Row -> bool
  {
    x => KeysEqual(lrow, lk, x, rk)
  }

  /** Matching is the row selection by that test. */
  lemma {:induction false} MatchRowsSelect(rows: seq<Row>, rk: seq<string>, lrow: Row, lk: seq<string>)
    ensures MatchRows(rows, rk, lrow, lk) == Select(rows, Matching(lrow, lk, rk))
  {
    if rows != [] {
      assert Matching(lrow, lk, rk)(rows[0]) == KeysEqual(lrow, lk, rows[0], rk);
      MatchRowsSelect(rows[1..], rk, lrow, lk);
    }
  }

  /** Matching distributes over concatenation: the matches come in right order, each
      as often as it occurs. */
  lemma MatchRowsAppend(a: seq<Row>, b: seq<Row>, rk: seq<string>, lrow: Row, lk: seq<string>)
    ensures MatchRows(a + b, rk, lrow, lk) == MatchRows(a, rk, lrow, lk) + MatchRows(b, rk, lrow, lk)
  {
    MatchRowsSelect(a + b, rk, lrow, lk);
    MatchRowsSelect(a, rk, lrow, lk);
    MatchRowsSelect(b, rk, lrow, lk);
    SelectAppend(a, b, Matching(lrow, lk, rk));
  }

  /** A right table without repeated rows gives matches without repeats. */
  lemma MatchRowsDistinct(rows: seq<Row>, rk: seq<string>, lrow: Row, lk: seq<string>)
    requires NoDuplicates(rows)
    ensures NoDuplicates(MatchRows(rows, rk, lrow, lk))
  {
    MatchRowsSelect(rows, rk, lrow, lk);
    SelectDistinct(rows, Matching(lrow, lk, rk));
  }

  /** The right rows matching `lrow`, in right order. */
  function Matches(p: Plan, lrow: Row): seq<Row>
  {
    MatchRows(p.right.rows, p.rk, lrow, p.lk)
  }

  /** The output row for `lrow` joined with `rrow`, or with nothing (`None`: every
      right-hand cell missing). */
  function Combine(p: Plan, lrow: Row, rrow: Option<Row>): (r: Row)
    requires ValidPlan(p) && Fits(lrow, p.lcols)
    ensures Fits(r, p.out)
    ensures forall i | 0 <= i < |p.lcols| :: r[p.out[i]] == lrow[p.lcols[i]]
    ensures forall j | 0 <= j < |p.kept| :: r[p.out[|p.lcols| + j]] == RightCell(rrow, p.kept[j])
  {
    var lvals := LeftValues(p, lrow);
    var rvals := RightValues(p, rrow);
    CombineZip(p, lrow, rrow, lvals, rvals);
    Zip(p.out, lvals + rvals)
  }

  /** The left row's cells, in left column order. */
  function LeftValues(p: Plan, lrow: Row): (v: seq<Cell>)
    requires Fits(lrow, p.lcols)
    ensures |v| == |p.lcols| && forall i | 0 <= i < |p.lcols| :: v[i] == lrow[p.lcols[i]]
  {
    seq(|p.lcols|, i requires 0 <= i < |p.lcols| => lrow[p.lcols[i]])
  }

  /** The matching right row's cells under the kept names, or all missing. */
  function RightValues(p: Plan, rrow: Option<Row>): (v: seq<Cell>)
    ensures |v| == |p.kept|
    ensures forall j | 0 <= j < |p.kept| :: v[j] == RightCell(rrow, p.kept[j])
  {
    seq(|p.kept|, j requires 0 <= j < |p.kept| => RightCell(rrow, p.kept[j]))
  }

  /** The cell of the matching right row under `c`; missing when nothing matched (a
      matching row is a row of the right table, so it has every kept name). */
  function RightCell(rrow: Option<Row>, c: string): Cell
  {
    if rrow.Some? && c in rrow.value then rrow.value[c] else None
  }

  /** A row that fits `cols` has each of them. */
  lemma FitsHasNames(r: Row, cols: seq<string>)
    requires Fits(r, cols)
    ensures forall i | 0 <= i < |cols| :: cols[i] in r
  {
    forall i | 0 <= i < |cols| ensures cols[i] in r {
      assert cols[i] in Names(cols);
    }
  }

  /** A row of the right table has every kept name. */
  lemma KeptInRow(p: Plan, rrow: Row)
    requires ValidPlan(p) && rrow in p.right.rows
    ensures forall j | 0 <= j < |p.kept| :: p.kept[j] in rrow
  {
    assert Fits(rrow, p.right.columns);
  }

  /** Zipping the output names with the left cells and then the kept right cells
      gives the cells `Combine` promises. */
  lemma CombineZip(p: Plan, lrow: Row, rrow: Option<Row>, lvals: seq<Cell>, rvals: seq<Cell>)
    requires ValidPlan(p) && Fits(lrow, p.lcols)
    requires |lvals| == |p.lcols| && |rvals| == |p.kept|
    requires forall i | 0 <= i < |p.lcols| :: lvals[i] == lrow[p.lcols[i]]
    requires forall j | 0 <= j < |p.kept| :: rvals[j] == RightCell(rrow, p.kept[j])
    ensures var r := Zip(p.out, lvals + rvals);
      && (forall i | 0 <= i < |p.lcols| :: r[p.out[i]] == lrow[p.lcols[i]])
      && (forall j | 0 <= j < |p.kept| :: r[p.out[|p.lcols| + j]] == RightCell(rrow, p.kept[j]))
  {
    ZipAppend(p.out, lvals, rvals);
  }

  /** Zipping distinct names with two runs of values puts the first run under the
      first names and the second under the rest. */
  lemma ZipAppend(cols: seq<string>, a: seq<Cell>, b: seq<Cell>)
    requires |cols| == |a| + |b| && NoDuplicates(cols)
    ensures var r := Zip(cols, a + b);
      && (forall i | 0 <= i < |a| :: r[cols[i]] == a[i])
      && (forall j | 0 <= j < |b| :: r[cols[|a| + j]] == b[j])
  {
    var r := Zip(cols, a + b);
    forall j | 0 <= j < |b| ensures r[cols[|a| + j]] == b[j] {
      assert (a + b)[|a| + j] == b[j];
    }
  }

  /** The output rows produced by one left row. */
  function Block(p: Plan, lrow: Row): (b: seq<Row>)
    requires ValidPlan(p) && Fits(lrow, p.lcols)
    ensures AllFit(b, p.out)
    ensures var m := Matches(p, lrow);
      |b| == if m == [] && p.how == Left then 1 else |m|
    ensures var m := Matches(p, lrow);
      m == [] && p.how == Left ==> b[0] == Combine(p, lrow, None)
    ensures var m := Matches(p, lrow);
      !(m == [] && p.how == Left) ==> forall k | 0 <= k < |m| :: b[k] == Combine(p, lrow, Some(m[k]))
  {
    var m := Matches(p, lrow);
    if m == [] && p.how == Left then [Combine(p, lrow, None)]
    else seq(|m|, j requires 0 <= j < |m| => Combine(p, lrow, Some(m[j])))
  }

  /** The blocks of the left rows, in left order. */
  function MergeRows(p: Plan, lrows: seq<Row>): (r: seq<Row>)
    requires ValidPlan(p) && AllFit(lrows, p.lcols)
    ensures AllFit(r, p.out)
  {
    if lrows == [] then []
    else Block(p, lrows[0]) + MergeRows(p, lrows[1..])
  }

  /** Why a merge fails in pandas: key lists of different lengths (`ValueError`), a
      key that is not a column (`KeyError`), or suffixes that leave two columns with
      one name (the model refuses every such clash). */
  predicate MergeFails(left: Table, right: Table, lk: seq<string>, rk: seq<string>, lsuf: string, rsuf: string)
  {
    || |lk| != |rk|
    || (exists c :: c in lk && c !in left.columns)
    || (exists c :: c in rk && c !in right.columns)
    || !NoDuplicates(MakePlan(Left, left, right, lk, rk, lsuf, rsuf).out)
  }

  function Merge(how: How, left: Table, right: Table, lk: seq<string>, rk: seq<string>,
                 lsuf: string, rsuf: string): (r: Option<Table>)
    ensures r.None? <==> MergeFails(left, right, lk, rk, lsuf, rsuf)
    ensures r.Some? ==> ValidPlan(MakePlan(how, left, right, lk, rk, lsuf, rsuf))
    ensures r.Some? ==> r.value.columns == MakePlan(how, left, right, lk, rk, lsuf, rsuf).out
    ensures r.Some? ==> r.value.rows == MergeRows(MakePlan(how, left, right, lk, rk, lsuf, rsuf), left.rows)
  {
    if MergeFails(left, right, lk, rk, lsuf, rsuf) then None
    else
      var p := MakePlan(how, left, right, lk, rk, lsuf, rsuf);
      MergePlanValid(how, left, right, lk, rk, lsuf, rsuf);
      var rows := MergeRows(p, left.rows);
      FitTable(p.out, rows);
      Some(Frame(p.out, rows))
  }

  /** A merge that does not fail has a valid plan, and the left rows fit it. */
  lemma MergePlanValid(how: How, left: Table, right: Table, lk: seq<string>, rk: seq<string>,
                       lsuf: string, rsuf: string)
    requires !MergeFails(left, right, lk, rk, lsuf, rsuf)
    ensures ValidPlan(MakePlan(how, left, right, lk, rk, lsuf, rsuf))
    ensures AllFit(left.rows, MakePlan(how, left, right, lk, rk, lsuf, rsuf).lcols)
  {
    var p := MakePlan(how, left, right, lk, rk, lsuf, rsuf);
    assert p.out == MakePlan(Left, left, right, lk, rk, lsuf, rsuf).out;
    assert forall c | c in p.kept :: c in right.columns;
  }

  /** Distinct names and rows that fit them make a table. */
  lemma FitTable(cols: seq<string>, rows: seq<Row>)
    requires NoDuplicates(cols) && AllFit(rows, cols)
    ensures WellFormed(Frame(cols, rows))
  {
    forall r | r in rows ensures Fits(r, cols) {
      var k :| 0 <= k < |rows| && rows[k] == r;
    }
  }

  // ---------------------------------------------------------------------------
  // What a merge promises

  /** The output of a merge is built left row by left row, so the blocks keep left order. */
  lemma {:induction false} MergeRowsAppend(p: Plan, a: seq<Row>, b: seq<Row>)
    requires ValidPlan(p)
    requires AllFit(a, p.lcols)
    requires AllFit(b, p.lcols)
    ensures MergeRows(p, a + b) == MergeRows(p, a) + MergeRows(p, b)
  {
    if a == [] {
      assert a + b == b;
    } else {
      assert (a + b)[0] == a[0] && (a + b)[1..] == a[1..] + b;
      MergeRowsAppend(p, a[1..], b);
    }
  }

  /** Every output row comes from the block of some left row. */
  lemma {:induction false} MergeRowOrigin(p: Plan, lrows: seq<Row>, o: Row)
    requires ValidPlan(p) && AllFit(lrows, p.lcols)
    requires o in MergeRows(p, lrows)
    ensures exists i :: 0 <= i < |lrows| && o in Block(p, lrows[i])
  {
    if o !in Block(p, lrows[0]) {
      MergeRowOrigin(p, lrows[1..], o);
      var i :| 0 <= i < |lrows[1..]| && o in Block(p, lrows[1..][i]);
      assert lrows[1..][i] == lrows[i + 1];
    }
  }

  /** A matching right row is one of the right table's rows and has its keys. */
  lemma MatchIsRightRow(p: Plan, lrow: Row, k: int)
    requires ValidPlan(p) && Fits(lrow, p.lcols)
    requires 0 <= k < |Matches(p, lrow)|
    ensures Matches(p, lrow)[k] in p.right.rows
    ensures KeysEqual(lrow, p.lk, Matches(p, lrow)[k], p.rk)
    ensures forall j | 0 <= j < |p.kept| :: p.kept[j] in Matches(p, lrow)[k]
  {
    var m := Matches(p, lrow);
    assert m[k] in m;
    KeptInRow(p, m[k]);
  }

  /** Cell `j` of the right-hand part of a block row. */
  lemma BlockRightCell(p: Plan, lrow: Row, k: int, j: int)
    requires ValidPlan(p) && Fits(lrow, p.lcols)
    requires 0 <= k < |Matches(p, lrow)| && 0 <= j < |p.kept|
    ensures |Block(p, lrow)| == |Matches(p, lrow)|
    ensures p.kept[j] in Matches(p, lrow)[k]
    ensures Block(p, lrow)[k][p.out[|p.lcols| + j]] == Matches(p, lrow)[k][p.kept[j]]
  {
    var rrow := Matches(p, lrow)[k];
    MatchIsRightRow(p, lrow, k);
    BlockMatchedRow(p, lrow, k);
    CombineRightCell(p, lrow, rrow, j);
  }

  /** Under a match, row `k` of the block joins the left row with the `k`-th match. */
  lemma BlockMatchedRow(p: Plan, lrow: Row, k: int)
    requires ValidPlan(p) && Fits(lrow, p.lcols)
    requires 0 <= k < |Matches(p, lrow)|
    ensures |Block(p, lrow)| == |Matches(p, lrow)|
    ensures Block(p, lrow)[k] == Combine(p, lrow, Some(Matches(p, lrow)[k]))
  {
  }

  /** A kept right cell of a row joined with a row that has that name. */
  lemma CombineRightCell(p: Plan, lrow: Row, rrow: Row, j: int)
    requires ValidPlan(p) && Fits(lrow, p.lcols)
    requires 0 <= j < |p.kept| && p.kept[j] in rrow
    ensures Combine(p, lrow, Some(rrow))[p.out[|p.lcols| + j]] == rrow[p.kept[j]]
  {
  }

  /** Cell `i` of the left-hand part of a block row. */
  lemma BlockLeftCell(p: Plan, lrow: Row, k: int, i: int)
    requires ValidPlan(p) && Fits(lrow, p.lcols)
    requires 0 <= k < |Block(p, lrow)| && 0 <= i < |p.lcols|
    ensures Block(p, lrow)[k][p.out[i]] == lrow[p.lcols[i]]
  {
    var m := Matches(p, lrow);
    if !(m == [] && p.how == Left) {
      MatchIsRightRow(p, lrow, k);
    }
  }

  /** A block row of a left row that matches nothing has every right-hand cell missing. */
  lemma BlockUnmatched(p: Plan, lrow: Row, j: int)
    requires ValidPlan(p) && Fits(lrow, p.lcols) && p.how == Left
    requires Matches(p, lrow) == [] && |p.lcols| <= j < |p.out|
    ensures Block(p, lrow)[0][p.out[j]] == None
  {
    var o := Combine(p, lrow, None);
    assert p.out[j] == p.out[|p.lcols| + (j - |p.lcols|)];
  }

  /** Under a left join a left row gives one row per matching right row, in right
      order, or a single row when nothing matches. */
  lemma LeftBlockSize(p: Plan, lrow: Row)
    requires ValidPlan(p) && p.how == Left && Fits(lrow, p.lcols)
    ensures |Block(p, lrow)| == if Matches(p, lrow) == [] then 1 else |Matches(p, lrow)|
  {
  }

  /** Every row of a left row's block carries the left row's cells under the left names. */
  lemma BlockLeftCells(p: Plan, lrow: Row)
    requires ValidPlan(p) && Fits(lrow, p.lcols)
    ensures forall k, i | 0 <= k < |Block(p, lrow)| && 0 <= i < |p.lcols| ::
      Block(p, lrow)[k][p.out[i]] == lrow[p.lcols[i]]
  {
    forall k, i | 0 <= k < |Block(p, lrow)| && 0 <= i < |p.lcols|
      ensures Block(p, lrow)[k][p.out[i]] == lrow[p.lcols[i]]
    {
      BlockLeftCell(p, lrow, k, i);
    }
  }

  /** The single row of a left row that matches nothing has every right-hand cell missing. */
  lemma BlockUnmatchedCells(p: Plan, lrow: Row)
    requires ValidPlan(p) && Fits(lrow, p.lcols) && p.how == Left && Matches(p, lrow) == []
    ensures forall j | |p.lcols| <= j < |p.out| :: Block(p, lrow)[0][p.out[j]] == None
  {
    forall j | |p.lcols| <= j < |p.out| ensures Block(p, lrow)[0][p.out[j]] == None {
      BlockUnmatched(p, lrow, j);
    }
  }

  /** Row `k` of a block carries the `k`-th matching right row's cells under the kept names. */
  lemma BlockRightCells(p: Plan, lrow: Row)
    requires ValidPlan(p) && Fits(lrow, p.lcols)
    ensures forall k, j | 0 <= k < |Matches(p, lrow)| && 0 <= j < |p.kept| ::
      p.kept[j] in Matches(p, lrow)[k] && Block(p, lrow)[k][p.out[|p.lcols| + j]] == Matches(p, lrow)[k][p.kept[j]]
  {
    forall k | 0 <= k < |Matches(p, lrow)|
      ensures forall j | 0 <= j < |p.kept| ::
        p.kept[j] in Matches(p, lrow)[k] && Block(p, lrow)[k][p.out[|p.lcols| + j]] == Matches(p, lrow)[k][p.kept[j]]
    {
      BlockRightRow(p, lrow, k);
    }
  }

  lemma BlockRightRow(p: Plan, lrow: Row, k: int)
    requires ValidPlan(p) && Fits(lrow, p.lcols) && 0 <= k < |Matches(p, lrow)|
    ensures forall j | 0 <= j < |p.kept| ::
      p.kept[j] in Matches(p, lrow)[k] && Block(p, lrow)[k][p.out[|p.lcols| + j]] == Matches(p, lrow)[k][p.kept[j]]
  {
    forall j | 0 <= j < |p.kept|
      ensures p.kept[j] in Matches(p, lrow)[k] && Block(p, lrow)[k][p.out[|p.lcols| + j]] == Matches(p, lrow)[k][p.kept[j]]
    {
      BlockRightCell(p, lrow, k, j);
    }
  }

  /** Under an inner join a left row gives one row per matching right row, in right
      order, each match being a right row whose keys equal the left row's (the cells
      of those rows are `BlockLeftCells` and `BlockRightCells`). */
  lemma InnerBlockRows(p: Plan, lrow: Row)
    requires ValidPlan(p) && p.how == Inner && Fits(lrow, p.lcols)
    ensures |Block(p, lrow)| == |Matches(p, lrow)|
    ensures forall k | 0 <= k < |Matches(p, lrow)| ::
      Matches(p, lrow)[k] in p.right.rows && KeysEqual(lrow, p.lk, Matches(p, lrow)[k], p.rk)
  {
    forall k | 0 <= k < |Matches(p, lrow)|
      ensures Matches(p, lrow)[k] in p.right.rows && KeysEqual(lrow, p.lk, Matches(p, lrow)[k], p.rk)
    {
      MatchIsRightRow(p, lrow, k);
    }
  }

  /** No two right rows carry the same key cells. */
  predicate UniqueKeys(rows: seq<Row>, rk: seq<string>)
  {
    forall i, j | 0 <= i < j < |rows| :: KeyCells(rows[i], rk) != KeyCells(rows[j], rk)
  }

  /** With unique right keys a left row matches at most one right row. */
  lemma {:induction false} UniqueKeysMatchOnce(rows: seq<Row>, rk: seq<string>, lrow: Row, lk: seq<string>)
    requires UniqueKeys(rows, rk)
    ensures |MatchRows(rows, rk, lrow, lk)| <= 1
  {
    if rows != [] {
      var tail := rows[1..];
      assert UniqueKeys(tail, rk) by {
        forall i, j | 0 <= i < j < |tail| ensures KeyCells(tail[i], rk) != KeyCells(tail[j], rk) {
          assert tail[i] == rows[i + 1] && tail[j] == rows[j + 1];
        }
      }
      UniqueKeysMatchOnce(tail, rk, lrow, lk);
      if KeysEqual(lrow, lk, rows[0], rk) {
        forall x | x in tail ensures !KeysEqual(lrow, lk, x, rk) {
          var j :| 0 <= j < |tail| && tail[j] == x;
          assert rows[j + 1] == x;
        }
      }
    }
  }

  /** A left join against right rows with unique keys yields exactly one row per left
      row, in left order: row `k` is the single row of left row `k`'s block. */
  lemma LeftJoinOneToOne(p: Plan, lrows: seq<Row>)
    requires ValidPlan(p) && p.how == Left && AllFit(lrows, p.lcols)
    requires UniqueKeys(p.right.rows, p.rk)
    ensures |MergeRows(p, lrows)| == |lrows|
    ensures forall k | 0 <= k < |lrows| :: |Block(p, lrows[k])| == 1 && MergeRows(p, lrows)[k] == Block(p, lrows[k])[0]
  {
    if lrows != [] {
      LeftJoinRowAt(p, lrows, 0);
    }
    forall k | 0 <= k < |lrows| ensures |Block(p, lrows[k])| == 1 && MergeRows(p, lrows)[k] == Block(p, lrows[k])[0] {
      LeftJoinRowAt(p, lrows, k);
    }
  }

  /** Row `k` of a left join on unique right keys is the single row of left row `k`. */
  lemma LeftJoinRowAt(p: Plan, lrows: seq<Row>, k: int)
    requires ValidPlan(p) && p.how == Left && AllFit(lrows, p.lcols)
    requires UniqueKeys(p.right.rows, p.rk)
    requires 0 <= k < |lrows|
    ensures |MergeRows(p, lrows)| == |lrows|
    ensures |Block(p, lrows[k])| == 1 && MergeRows(p, lrows)[k] == Block(p, lrows[k])[0]
  {
    forall i | 0 <= i < |lrows| ensures BlockSize(p.right.rows, p.rk, lrows[i], p.lk) == 1 {
      UniqueKeysMatchOnce(p.right.rows, p.rk, lrows[i], p.lk);
    }
    UniqueOffset(p, lrows, k);
    UniqueOffset(p, lrows, |lrows|);
    assert lrows[..|lrows|] == lrows;
    LeftJoinPrefix(p, lrows, |lrows|);
    LeftJoinRowAtOffset(p, lrows, k, 0, k);
  }

  /** When every left row matches at most once, every block has one row, so left row
      `k`'s block starts at output row `k`. */
  lemma UniqueOffset(p: Plan, lrows: seq<Row>, k: int)
    requires 0 <= k <= |lrows|
    requires forall i | 0 <= i < |lrows| :: BlockSize(p.right.rows, p.rk, lrows[i], p.lk) == 1
    ensures LeftOffset(p.right.rows, p.rk, lrows, p.lk, k) == k
  {
    SizesOfOne(BlockSizes(p.right.rows, p.rk, p.lk), lrows, k);
  }


  /** The single row a left join gives a left row that matches at most once. */
  lemma LeftJoinSingleRow(p: Plan, lrow: Row, o: Row)
    requires ValidPlan(p) && p.how == Left && Fits(lrow, p.lcols)
    requires |Block(p, lrow)| == 1 && o == Block(p, lrow)[0]
    ensures Fits(o, p.out)
    ensures forall i | 0 <= i < |p.out| :: p.out[i] in o
    ensures forall i | 0 <= i < |p.lcols| :: p.lcols[i] in lrow
    ensures forall i | 0 <= i < |p.lcols| :: o[p.out[i]] == lrow[p.lcols[i]]
    ensures Matches(p, lrow) == [] ==> forall j | |p.lcols| <= j < |p.out| :: o[p.out[j]] == None
    ensures Matches(p, lrow) != [] ==> forall j | 0 <= j < |p.kept| ::
      p.kept[j] in Matches(p, lrow)[0] && o[p.out[|p.lcols| + j]] == Matches(p, lrow)[0][p.kept[j]]
  {
    FitsHasNames(o, p.out);
    FitsHasNames(lrow, p.lcols);
    LeftBlockSize(p, lrow);
    BlockLeftCells(p, lrow);
    if Matches(p, lrow) == [] {
      BlockUnmatchedCells(p, lrow);
    }
    BlockRightCells(p, lrow);
  }

  /** Consequently row `k` of such a left join carries left row `k`'s cells under the
      left column names, and its right-hand cells are those of the one matching right
      row, or all missing when no right row matches. */
  lemma {:induction false} LeftJoinOneToOneCells(p: Plan, lrows: seq<Row>, k: int)
    requires ValidPlan(p) && p.how == Left && AllFit(lrows, p.lcols)
    requires UniqueKeys(p.right.rows, p.rk)
    requires 0 <= k < |lrows|
    ensures |MergeRows(p, lrows)| == |lrows|
    ensures Fits(MergeRows(p, lrows)[k], p.out)
    ensures var o := MergeRows(p, lrows)[k]; var m := Matches(p, lrows[k]);
      && (forall i | 0 <= i < |p.lcols| :: o[p.out[i]] == lrows[k][p.lcols[i]])
      && (m == [] ==> forall j | |p.lcols| <= j < |p.out| :: o[p.out[j]] == None)
      && (m != [] ==> forall j | 0 <= j < |p.kept| :: p.kept[j] in m[0] && o[p.out[|p.lcols| + j]] == m[0][p.kept[j]])
  {
    var lrow := lrows[k];
    assert lrow in lrows;
    LeftJoinRowAt(p, lrows, k);
    LeftJoinSingleRow(p, lrow, MergeRows(p, lrows)[k]);
  }

  /** Where the rows of left row `k` start in a left join: the block sizes of the left
      rows before it, one row for a left row that matches nothing and one per matching
      right row otherwise. */
  function LeftOffset(rrows: seq<Row>, rk: seq<string>, lrows: seq<Row>, lk: seq<string>, k: int): nat
    requires 0 <= k <= |lrows|
  {
    SizesBefore(BlockSizes(rrows, rk, lk), lrows, k)
  }

  /** The sizes of the first `k` rows' blocks, added up. */
  function SizesBefore(size: Row -> nat, lrows: seq<Row>, k: int): nat
    requires 0 <= k <= |lrows|
  {
    if k == 0 then 0 else SizesBefore(size, lrows, k - 1) + size(lrows[k - 1])
  }

  /** Blocks of one row each add up to one row per left row. */
  lemma {:induction false} SizesOfOne(size: Row -> nat, lrows: seq<Row>, k: int)
    requires 0 <= k <= |lrows|
    requires forall i | 0 <= i < |lrows| :: size(lrows[i]) == 1
    ensures SizesBefore(size, lrows, k) == k
  {
    if k > 0 {
      SizesOfOne(size, lrows, k - 1);
    }
  }

  function BlockSizes(rrows: seq<Row>, rk: seq<string>, lk: seq<string>): Row -> nat
  {
    lrow => BlockSize(rrows, rk, lrow, lk)
  }

  /** Adding up more blocks never gives fewer rows. */
  lemma {:induction false} SizesGrow(size: Row -> nat, lrows: seq<Row>, i: int, j: int)
    requires 0 <= i <= j <= |lrows|
    ensures SizesBefore(size, lrows, i) <= SizesBefore(size, lrows, j)
    decreases j
  {
    if i < j {
      SizesGrow(size, lrows, i, j - 1);
    }
  }

  /** The row counts of a left join: the output has `LeftOffset(|lrows|)` rows and
      left row `k`'s block, from `LeftOffset(k)` up to `LeftOffset(k + 1)`, is never
      empty. */
  lemma LeftJoinCounts(p: Plan, lrows: seq<Row>, k: int)
    requires ValidPlan(p) && p.how == Left && AllFit(lrows, p.lcols)
    requires 0 <= k < |lrows|
    ensures |MergeRows(p, lrows)| == LeftOffset(p.right.rows, p.rk, lrows, p.lk, |lrows|)
    ensures LeftOffset(p.right.rows, p.rk, lrows, p.lk, k) < LeftOffset(p.right.rows, p.rk, lrows, p.lk, k + 1)
    ensures LeftOffset(p.right.rows, p.rk, lrows, p.lk, k + 1) <= |MergeRows(p, lrows)|
  {
    LeftJoinTotal(p, lrows);
    var size := BlockSizes(p.right.rows, p.rk, p.lk);
    assert size(lrows[k]) >= 1;
    SizesLayout(size, lrows, k);
  }

  /** A left join has `LeftOffset(|lrows|)` rows. */
  lemma LeftJoinTotal(p: Plan, lrows: seq<Row>)
    requires ValidPlan(p) && p.how == Left && AllFit(lrows, p.lcols)
    ensures |MergeRows(p, lrows)| == LeftOffset(p.right.rows, p.rk, lrows, p.lk, |lrows|)
  {
    assert lrows[..|lrows|] == lrows;
    LeftJoinPrefix(p, lrows, |lrows|);
  }

  /** A block that is never empty starts before the next one and within the total. */
  lemma SizesLayout(size: Row -> nat, lrows: seq<Row>, k: int)
    requires 0 <= k < |lrows| && size(lrows[k]) >= 1
    ensures SizesBefore(size, lrows, k) < SizesBefore(size, lrows, k + 1)
    ensures SizesBefore(size, lrows, k + 1) <= SizesBefore(size, lrows, |lrows|)
  {
    SizesGrow(size, lrows, k + 1, |lrows|);
  }

  /** The number of rows a left join gives one left row: one per matching right
      row, or a single row when none matches. */
  function BlockSize(rrows: seq<Row>, rk: seq<string>, lrow: Row, lk: seq<string>): (n: nat)
    ensures n >= 1
  {
    var m := MatchRows(rrows, rk, lrow, lk);
    if m == [] then 1 else |m|
  }

  /** The first `k` left rows of a left join fill exactly `LeftOffset` output rows. */
  lemma {:induction false} LeftJoinPrefix(p: Plan, lrows: seq<Row>, k: int)
    requires ValidPlan(p) && p.how == Left && AllFit(lrows, p.lcols)
    requires 0 <= k <= |lrows|
    ensures AllFit(lrows[..k], p.lcols)
    ensures |MergeRows(p, lrows[..k])| == LeftOffset(p.right.rows, p.rk, lrows, p.lk, k)
  {
    AllFitSlice(lrows, p.lcols, 0, k);
    assert lrows[..k] == lrows[0..k];
    if k > 0 {
      var x := lrows[k - 1];
      var one: seq<Row> := [x];
      assert lrows[..k] == lrows[..k - 1] + one;
      LeftJoinPrefix(p, lrows, k - 1);
      MergeRowsAppend(p, lrows[..k - 1], one);
      MergeRowsCons(p, one);
      assert one[1..] == [];
      BlockHasSize(p, x);
      assert LeftOffset(p.right.rows, p.rk, lrows, p.lk, k) ==
        LeftOffset(p.right.rows, p.rk, lrows, p.lk, k - 1) + BlockSize(p.right.rows, p.rk, x, p.lk);
    }
  }

  /** The rows of a left join, left row by left row: the block of left row `k` fills
      the output rows from `LeftOffset(k)` up to `LeftOffset(k + 1)`, so the blocks
      follow each other in left order and the output has `LeftOffset(|lrows|)` rows. */
  lemma LeftJoinLayout(p: Plan, lrows: seq<Row>, k: int)
    requires ValidPlan(p) && p.how == Left && AllFit(lrows, p.lcols)
    requires 0 <= k < |lrows|
    ensures |MergeRows(p, lrows)| == LeftOffset(p.right.rows, p.rk, lrows, p.lk, |lrows|)
    ensures var lo := LeftOffset(p.right.rows, p.rk, lrows, p.lk, k);
      var hi := LeftOffset(p.right.rows, p.rk, lrows, p.lk, k + 1);
      lo <= hi <= |MergeRows(p, lrows)| && MergeRows(p, lrows)[lo..hi] == Block(p, lrows[k])
  {
    var front, back := LeftJoinAround(p, lrows, k);
    SliceMiddle(front, Block(p, lrows[k]), back);
  }

  /** Row `j` of left row `k`'s block, read off the whole left join at row `n`. */
  lemma LeftJoinRowAtOffset(p: Plan, lrows: seq<Row>, k: int, j: int, n: int)
    requires ValidPlan(p) && p.how == Left && AllFit(lrows, p.lcols)
    requires 0 <= k < |lrows| && 0 <= j < |Block(p, lrows[k])|
    requires n == LeftOffset(p.right.rows, p.rk, lrows, p.lk, k) + j
    ensures n < |MergeRows(p, lrows)| && MergeRows(p, lrows)[n] == Block(p, lrows[k])[j]
  {
    var front, back := LeftJoinAround(p, lrows, k);
    IndexMiddle(front, Block(p, lrows[k]), back, j);
  }

  /** A right-hand cell of row `j` of left row `k`'s block, read off the whole left
      join at row `n`: that of the `j`-th matching right row. */
  lemma LeftJoinRightCellAt(p: Plan, lrows: seq<Row>, k: int, j: int, i: int, n: int)
    requires ValidPlan(p) && p.how == Left && AllFit(lrows, p.lcols)
    requires 0 <= k < |lrows| && 0 <= j < |Matches(p, lrows[k])| && 0 <= i < |p.kept|
    requires n == LeftOffset(p.right.rows, p.rk, lrows, p.lk, k) + j
    ensures n < |MergeRows(p, lrows)|
    ensures p.kept[i] in Matches(p, lrows[k])[j]
    ensures MergeRows(p, lrows)[n][p.out[|p.lcols| + i]] == Matches(p, lrows[k])[j][p.kept[i]]
  {
    LeftJoinRowAtOffset(p, lrows, k, j, n);
    BlockRightCell(p, lrows[k], j, i);
  }

  /** A left-hand cell of row `j` of left row `k`'s block, read off the whole left
      join at row `n`: that of left row `k`. */
  lemma LeftJoinLeftCellAt(p: Plan, lrows: seq<Row>, k: int, j: int, i: int, n: int)
    requires ValidPlan(p) && p.how == Left && AllFit(lrows, p.lcols)
    requires 0 <= k < |lrows| && 0 <= j < |Block(p, lrows[k])| && 0 <= i < |p.lcols|
    requires n == LeftOffset(p.right.rows, p.rk, lrows, p.lk, k) + j
    ensures n < |MergeRows(p, lrows)|
    ensures MergeRows(p, lrows)[n][p.out[i]] == lrows[k][p.lcols[i]]
  {
    LeftJoinRowAtOffset(p, lrows, k, j, n);
    BlockLeftCell(p, lrows[k], j, i);
  }

  /** The single row of a left row that matches nothing, read off the whole left join
      at row `n`: every right-hand cell missing. */
  lemma LeftJoinUnmatchedAt(p: Plan, lrows: seq<Row>, k: int, i: int, n: int)
    requires ValidPlan(p) && p.how == Left && AllFit(lrows, p.lcols)
    requires 0 <= k < |lrows| && Matches(p, lrows[k]) == [] && |p.lcols| <= i < |p.out|
    requires n == LeftOffset(p.right.rows, p.rk, lrows, p.lk, k)
    ensures n < |MergeRows(p, lrows)|
    ensures MergeRows(p, lrows)[n][p.out[i]] == None
  {
    LeftJoinRowAtOffset(p, lrows, k, 0, n);
    BlockUnmatched(p, lrows[k], i);
  }

  /** Under a left join a block has `BlockSize` rows. */
  lemma BlockHasSize(p: Plan, lrow: Row)
    requires ValidPlan(p) && p.how == Left && Fits(lrow, p.lcols)
    ensures |Block(p, lrow)| == BlockSize(p.right.rows, p.rk, lrow, p.lk)
  {
  }

  /** The output of a left join around left row `k`'s block: the rows before it fill
      `LeftOffset(k)` rows, and the whole output fills `LeftOffset(|lrows|)`. */
  lemma LeftJoinAround(p: Plan, lrows: seq<Row>, k: int) returns (front: seq<Row>, back: seq<Row>)
    requires ValidPlan(p) && p.how == Left && AllFit(lrows, p.lcols)
    requires 0 <= k < |lrows|
    ensures MergeRows(p, lrows) == front + Block(p, lrows[k]) + back
    ensures |front| == LeftOffset(p.right.rows, p.rk, lrows, p.lk, k)
    ensures |MergeRows(p, lrows)| == LeftOffset(p.right.rows, p.rk, lrows, p.lk, |lrows|)
  {
    assert lrows[..|lrows|] == lrows;
    LeftJoinPrefix(p, lrows, |lrows|);
    LeftJoinPrefix(p, lrows, k);
    var rest := LeftJoinSplit(p, lrows, k);
    front := MergeRows(p, lrows[..k]);
    back := MergeRows(p, rest);
  }

  /** The output of a left join split at left row `k`. */
  lemma LeftJoinSplit(p: Plan, lrows: seq<Row>, k: int) returns (back: seq<Row>)
    requires ValidPlan(p) && p.how == Left && AllFit(lrows, p.lcols)
    requires 0 <= k < |lrows|
    ensures AllFit(lrows[..k], p.lcols) && AllFit(back, p.lcols)
    ensures MergeRows(p, lrows) == MergeRows(p, lrows[..k]) + Block(p, lrows[k]) + MergeRows(p, back)
  {
    var front := lrows[..k];
    var rest := lrows[k..];
    back := lrows[k + 1..];
    SplitAt(lrows, k);
    AllFitSlice(lrows, p.lcols, 0, k);
    AllFitSlice(lrows, p.lcols, k, |lrows|);
    AllFitSlice(lrows, p.lcols, k + 1, |lrows|);
    MergeRowsAppend(p, front, rest);
    MergeRowsCons(p, rest);
  }

  /** A sequence cut before its element `k`. */
  lemma SplitAt<T>(s: seq<T>, k: int)
    requires 0 <= k < |s|
    ensures s == s[..k] + s[k..]
    ensures s[k..][0] == s[k] && s[k..][1..] == s[k + 1..]
    ensures s[0..k] == s[..k] && s[k..|s|] == s[k..] && s[k + 1..|s|] == s[k + 1..]
  {
  }

  /** The output of a merge starts with the block of the first left row. */
  lemma MergeRowsCons(p: Plan, lrows: seq<Row>)
    requires ValidPlan(p) && AllFit(lrows, p.lcols) && lrows != []
    ensures AllFit(lrows[1..], p.lcols)
    ensures MergeRows(p, lrows) == Block(p, lrows[0]) + MergeRows(p, lrows[1..])
  {
  }

  /** Every slice of rows that fit `cols` fits `cols`. */
  lemma AllFitSlice(rows: seq<Row>, cols: seq<string>, i: int, j: int)
    requires AllFit(rows, cols) && 0 <= i <= j <= |rows|
    ensures AllFit(rows[i..j], cols)
  {
    forall n | 0 <= n < j - i ensures Fits(rows[i..j][n], cols) {
      assert rows[i..j][n] == rows[i + n];
    }
  }

  /** The middle part of a concatenation of three. */
  lemma SliceMiddle<T>(a: seq<T>, b: seq<T>, c: seq<T>)
    ensures (a + b + c)[|a|..|a| + |b|] == b
  {
  }

  /** An element of the middle part of a concatenation of three. */
  lemma IndexMiddle<T>(a: seq<T>, b: seq<T>, c: seq<T>, j: int)
    requires 0 <= j < |b|
    ensures |a| + j < |a + b + c| && (a + b + c)[|a| + j] == b[j]
  {
  }

  /** A left join never loses a left row: there are at least as many output rows. */
  lemma {:induction false} LeftJoinKeepsRows(p: Plan, lrows: seq<Row>)
    requires ValidPlan(p) && p.how == Left && AllFit(lrows, p.lcols)
    ensures |MergeRows(p, lrows)| >= |lrows|
  {
    if lrows != [] {
      LeftBlockSize(p, lrows[0]);
      MergeRowsCons(p, lrows);
      LeftJoinKeepsRows(p, lrows[1..]);
    }
  }

  /** Every row of an inner join joins some left row with a right row whose keys
      match it. */
  lemma InnerJoinOrigin(p: Plan, lrows: seq<Row>, o: Row)
    requires ValidPlan(p) && p.how == Inner && AllFit(lrows, p.lcols)
    requires o in MergeRows(p, lrows)
    ensures exists i, rrow ::
      && 0 <= i < |lrows| && rrow in p.right.rows
      && KeysEqual(lrows[i], p.lk, rrow, p.rk) && o == Combine(p, lrows[i], Some(rrow))
  {
    MergeRowOrigin(p, lrows, o);
    var i :| 0 <= i < |lrows| && o in Block(p, lrows[i]);
    var b := Block(p, lrows[i]);
    var k :| 0 <= k < |b| && b[k] == o;
    MatchIsRightRow(p, lrows[i], k);
  }

  /** When no name needs a suffix the output columns are the left columns followed
      by the kept right columns, and a joined row holds the left row's cells and the
      right row's kept cells under their own names. */
  lemma CombineAppended(p: Plan, lrow: Row, rrow: Row)
    requires ValidPlan(p) && Fits(lrow, p.lcols) && rrow in p.right.rows
    requires p.out == p.lcols + p.kept
    ensures var o := Combine(p, lrow, Some(rrow));
      && (forall c | c in lrow :: c in o && o[c] == lrow[c])
      && (forall c | c in p.kept :: c in o && c in rrow && o[c] == rrow[c])
  {
    forall c | c in lrow
      ensures c in Combine(p, lrow, Some(rrow)) && Combine(p, lrow, Some(rrow))[c] == lrow[c]
    {
      CombineAppendedLeft(p, lrow, rrow, c);
    }
    forall c | c in p.kept
      ensures c in Combine(p, lrow, Some(rrow)) && c in rrow && Combine(p, lrow, Some(rrow))[c] == rrow[c]
    {
      CombineAppendedRight(p, lrow, rrow, c);
    }
  }

  /** One left cell of `CombineAppended`. */
  lemma CombineAppendedLeft(p: Plan, lrow: Row, rrow: Row, c: string)
    requires ValidPlan(p) && Fits(lrow, p.lcols) && rrow in p.right.rows
    requires p.out == p.lcols + p.kept && c in lrow
    ensures var o := Combine(p, lrow, Some(rrow));
      c in o && o[c] == lrow[c]
  {
    var k :| 0 <= k < |p.lcols| && p.lcols[k] == c;
    assert p.out[k] == c;
  }

  /** One kept right cell of `CombineAppended`. */
  lemma CombineAppendedRight(p: Plan, lrow: Row, rrow: Row, c: string)
    requires ValidPlan(p) && Fits(lrow, p.lcols) && rrow in p.right.rows
    requires p.out == p.lcols + p.kept && c in p.kept
    ensures var o := Combine(p, lrow, Some(rrow));
      c in o && c in rrow && o[c] == rrow[c]
  {
    var j :| 0 <= j < |p.kept| && p.kept[j] == c;
    KeptInRow(p, rrow);
    assert p.out[|p.lcols| + j] == c;
  }
}
