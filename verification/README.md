# nba-roty-predictor: the table pipeline in Dafny

The repository scrapes basketball-reference pages for NBA rookie-of-the-year
voting, advanced player statistics and conference standings. It turns them into
one master table for a predictor. This project models the deterministic part of
that pipeline:

- the normalizers of the four `extract_*` functions in `webscraping/bref_scraper.py`:
  - rename the per-game columns;
  - drop the spacer columns;
  - drop repeated header rows and rows with no rank;
  - strip the Hall of Fame `*` from names;
  - union the East and West standings with a conference tag;
  - read team abbreviations from the anchors' links;
  - inner-join the standings with the de-duplicated teams;
- the three `historical_*` aggregators of `webscraping/data_preprocessing.py`, which
  loop over `[start_year, end_year)`, tag each table with its year and concatenate;
- the script steps of `webscraping/data_preprocessing.py` (lines 90-120):
  - two left joins, each followed by dropping the columns whose name contains `remove`;
  - the fixed column drop;
  - the null fills.

A pandas `DataFrame` is a `Frames.Table`: an ordered list of distinct column names
and a sequence of rows. Every row maps exactly those names to a `Cell`. A cell is
`None` (NaN) or holds a `Str` or an `Int`. A pandas operation that raises is
modelled as `None` of an `Option`. What the network and the HTML parser produce
is an input: a `Scraper.Page` is an HTTP error, some other failure, or the located
table (absent when the page lacks it). The aggregators take the per-year extractor
as a function `int -> Option<Table>`.

Modules, in dependency order:

- `Wrappers` (wrappers.dfy): `Option`.
- `Strings` (strings.dfy): substring test, character removal, split and join.
- `Frames` (frames.dfy): the table model and the pandas operations it needs:
  - row filter, rename, column assignment, `fillna`;
  - `drop`, `drop_duplicates`, `concat`.
- `Merging` (merging.dfy): `pd.merge` with `how='left'` or `how='inner'`, key lists
  and suffixes.
- `Scraper` (scraper.dfy): the normalizers and the four extractors.
- `Preprocessing` (preprocessing.dfy): the aggregators, as methods with loops, and
  the join, drop and fill script.

Behaviour of the code that the model keeps, with the members that state it:

- An entirely null `Rk` column is numeric, so `.str.contains` raises and the
  extractor returns `None` (Scraper.RookiesNormalized, Scraper.AdvancedFails).
- When every year gives `None`, `pd.concat([])` raises (Preprocessing.HistoricalFails).
- `round(NaN)` raises when `W` or `L` is entirely null (Preprocessing.FillMasterFails).
  An entirely null `W/L%` stays null, because its mean is NaN
  (Preprocessing.FillMasterNoNulls).
- A transport error makes the extractor return `None`, and the aggregator skips that
  year. Only a page without the table gives the empty table
  (Scraper.ExtractRookiesOutcome, Preprocessing.Historical).

The functions that only compute a stage have no contract of their own. Each is
specified by the lemmas in its rows below: `NormalizeRookies`, `NormalizeAdvanced`,
`TagEast`, `TagWest`, `UnionStandings`, `JoinTeams`, `NormalizeStandings`, the four
`Extract*` functions, `TagYear`, `JoinAdvanced`, `JoinStandings`, `MasterTable`,
`FillMaster` and `CleanMaster`.

## Model

| member | source | states |
|---|---|---|
| Strings.ContainsIffOccurs | webscraping/bref_scraper.py:31 | the recursive substring test behind `str.contains` holds exactly when `sub` occurs at some position of `s` |
| Strings.RemoveChar | webscraping/bref_scraper.py:103 | `str.replace('*', '')` on text: the result has no `c`, keeps every other character of the input and no other, is no longer, and is the input when it had no `c` |
| Strings.RemoveCharAppend | webscraping/bref_scraper.py:103 | removing a character distributes over concatenation |
| Strings.RemoveCharIdempotent | webscraping/bref_scraper.py:151 | stripping `*` twice is stripping it once |
| Strings.Split | webscraping/bref_scraper.py:157 | `href.split('/')` gives at least one part and no part contains the separator |
| Strings.JoinSplit | webscraping/bref_scraper.py:157 | joining the parts of a split with the separator gives back the string |
| Strings.SplitJoin | webscraping/bref_scraper.py:157 | splitting a join of separator-free parts gives back the parts |
| Strings.SplitCount | webscraping/bref_scraper.py:157 | a split has one more part than the string has separators |
| Frames.Select | webscraping/bref_scraper.py:30-31 | a boolean-mask filter keeps exactly the rows that pass, and no more rows than it had |
| Frames.SelectAppend | webscraping/bref_scraper.py:30-31 | filtering distributes over concatenation, so order is kept |
| Frames.SelectNarrow | webscraping/bref_scraper.py:30-31 | a second filter whose rows all pass the first is the same as applying it alone |
| Frames.RenameColumn | webscraping/bref_scraper.py:140 | `rename` fails exactly when the target name is already another column; otherwise each column is renamed in place and every cell moves to the renamed column |
| Frames.RenameColumnCells | webscraping/bref_scraper.py:143 | after a rename the new column holds the old column's cells and every other column is unchanged |
| Frames.SetColumn | webscraping/bref_scraper.py:139 | `df[col] = v` appends the column if it is new and sets that cell of every row, leaving the rest of each row |
| Frames.MapColumn | webscraping/bref_scraper.py:103 | `df[col] = f(df[col])` changes only that column, cell by cell |
| Frames.FillNa | webscraping/data_preprocessing.py:117-120 | `fillna` fails exactly when the column is missing; it replaces only that column's null cells and changes nothing else |
| Frames.DropSet | webscraping/bref_scraper.py:99 | dropping a set of names removes those names from the columns and those cells from every row, and keeps every other column |
| Frames.WithoutAppend | webscraping/bref_scraper.py:99 | the names left after a drop keep their order: dropping from a concatenation concatenates the drops |
| Frames.DropColumns | webscraping/data_preprocessing.py:113 | `drop(columns=...)` fails exactly when a listed name is not a column; otherwise it is the set drop |
| Frames.DropMatching | webscraping/data_preprocessing.py:92 | the result keeps exactly the columns whose name does not contain the substring, with their cells |
| Frames.Dedup | webscraping/bref_scraper.py:160 | `drop_duplicates` leaves each row once, keeps every distinct row and adds none |
| Frames.DedupAppend | webscraping/bref_scraper.py:160 | one more row is kept at the end exactly when it was not seen before, so the first occurrences stay in input order |
| Frames.DedupDistinct | webscraping/bref_scraper.py:160 | rows that are already distinct are left as they are |
| Frames.UnionColumns | webscraping/data_preprocessing.py:23 | the columns of `pd.concat` are distinct, and are exactly the columns found in some input |
| Frames.AddNewIs | webscraping/data_preprocessing.py:23 | adding distinct names to a column list appends, in their order, those not already there |
| Frames.UnionColumnsAppend | webscraping/data_preprocessing.py:23 | one more table appends its new columns in its own order, so the union lists the columns by first appearance |
| Frames.PadFitting | webscraping/bref_scraper.py:150 | a row that already has exactly the union columns is left as it is by the concatenation |
| Frames.Concat | webscraping/data_preprocessing.py:23 | `pd.concat` fails exactly on an empty list; otherwise it has the union of the columns and the inputs' rows in order, padded |
| Frames.ConcatRowCount | webscraping/data_preprocessing.py:23 | a concatenation has as many rows as its inputs together |
| Frames.ConcatTwo | webscraping/bref_scraper.py:150 | concatenating two tables puts every row of the first before every row of the second |
| Frames.ConcatTwoCell | webscraping/bref_scraper.py:150 | a cell of a two-table concatenation is the cell of the row it came from |
| Merging.Zip | webscraping/data_preprocessing.py:91 | a row built from names and values holds exactly those names, each with its value |
| Merging.Suffixed | webscraping/data_preprocessing.py:91 | suffixing keeps the name count, and leaves the names as they are under the empty left suffix and when no name is shared |
| Merging.MatchRows | webscraping/data_preprocessing.py:91 | the right rows matched to a left row are exactly those whose keys equal its keys |
| Merging.MatchRowsAppend | webscraping/data_preprocessing.py:91 | matching over concatenated right rows concatenates the matches, so they come in right order with repeats kept |
| Merging.MatchRowsSelect | webscraping/data_preprocessing.py:91 | the matches are the right rows filtered by key equality |
| Merging.MatchRowsDistinct | webscraping/bref_scraper.py:160-162 | distinct right rows give distinct matches |
| Merging.Combine | webscraping/data_preprocessing.py:91 | a joined row carries the left row's cells under the left names, and the matched right row's cells (or nulls) under the right names |
| Merging.Block | webscraping/data_preprocessing.py:91 | one left row yields one joined row per match, or a single null-extended row under a left join with no match |
| Merging.Merge | webscraping/data_preprocessing.py:91 | `pd.merge` fails exactly on unequal key lists, a missing key column or clashing result names; otherwise the result's rows are the left rows' blocks in left order |
| Merging.MergeRowsAppend | webscraping/data_preprocessing.py:91 | joining concatenated left rows concatenates the joins, so the left order is kept |
| Merging.MergeRowOrigin | webscraping/bref_scraper.py:162 | every joined row comes from some left row's block |
| Merging.LeftBlockSize | webscraping/data_preprocessing.py:91 | under a left join a left row yields one row per match, or one row when nothing matches |
| Merging.BlockLeftCells | webscraping/data_preprocessing.py:91 | every row of a left row's block carries that left row's cells under the left names |
| Merging.BlockUnmatchedCells | webscraping/data_preprocessing.py:91 | an unmatched left row's single row holds nulls in every right-hand column |
| Merging.BlockRightCells | webscraping/data_preprocessing.py:91 | block row `k` carries the cells of match `k` under the right-hand names |
| Merging.LeftJoinLayout | webscraping/data_preprocessing.py:91 | left row `k`'s block occupies output rows `[LeftOffset(k), LeftOffset(k+1))`, and the output has `LeftOffset(|left|)` rows |
| Merging.LeftJoinCounts | webscraping/data_preprocessing.py:91 | the block offsets strictly increase with the left row, so every left row owns at least one output row, in left order |
| Merging.InnerBlockRows | webscraping/bref_scraper.py:162 | an inner join gives one row per match, each match a right row whose keys equal the left row's; the cells are those of Merging.BlockLeftCells and Merging.BlockRightCells |
| Merging.UniqueKeysMatchOnce | webscraping/data_preprocessing.py:95 | when the right keys are unique, a left row matches at most one right row |
| Merging.LeftJoinOneToOne | webscraping/data_preprocessing.py:95 | a left join on unique right keys gives exactly one row per left row, in left order |
| Merging.LeftJoinOneToOneCells | webscraping/data_preprocessing.py:95 | output row `k` of such a join has left row `k`'s cells, and either the match's cells or nulls on the right |
| Merging.LeftJoinKeepsRows | webscraping/data_preprocessing.py:91 | a left join never has fewer rows than its left side |
| Merging.InnerJoinOrigin | webscraping/bref_scraper.py:162 | every row of an inner join combines a left row with a right row whose keys equal its own |
| Merging.CombineAppended | webscraping/bref_scraper.py:162 | with no renamed columns, a joined row extends the left row and carries the right row's kept cells |
| Scraper.StripStar | webscraping/bref_scraper.py:103 | `.str.replace('*', '')` turns text into the same text with every `*` removed, leaves star-free text alone, and turns a missing or non-text cell into NaN |
| Scraper.RenameAll | webscraping/bref_scraper.py:27 | a successful sequence of renames keeps the column count, renames position by position and carries every cell |
| Scraper.RenameAllFails | webscraping/bref_scraper.py:27 | renames with distinct names fail exactly when some rename's source and target are both columns |
| Scraper.PerGameNames | webscraping/bref_scraper.py:27 | the four renames send `MP.1`, `PTS.1`, `TRB.1`, `AST.1` to `MP/G`, `PTS/G`, `TRB/G`, `AST/G` and leave every other name alone |
| Scraper.RookiesRenameFails | webscraping/bref_scraper.py:27 | the rookies rename fails exactly when an old per-game name and its new name are both present |
| Scraper.RookiesRenameAllColumns | webscraping/bref_scraper.py:27 | otherwise exactly the four per-game columns change name, and every column keeps its position |
| Scraper.RookiesRenameCells | webscraping/bref_scraper.py:27 | every cell moves to its column's new name |
| Scraper.RookiesRankKept | webscraping/bref_scraper.py:27-30 | the rename keeps the `Rk` column and its cells |
| Scraper.PresentRanksText | webscraping/bref_scraper.py:30-31 | after dropping the rows with a null rank, every rank is text exactly when no present rank is numeric |
| Scraper.RookiesNormalized | webscraping/bref_scraper.py:25-33 | `NormalizeRookies` fails exactly in the listed cases; otherwise it has the renamed columns and exactly the renamed rows with a present, text, non-`Rk` rank, in order |
| Scraper.AdvancedDrop | webscraping/bref_scraper.py:99 | dropping the spacers removes `Unnamed: 19` and `Unnamed: 24` from the columns and from every row, and keeps `Rk` and `Player` |
| Scraper.AdvancedFails | webscraping/bref_scraper.py:96-103 | `NormalizeAdvanced` fails exactly when a spacer, `Rk` or `Player` is missing, a rank is not text, `Player` is numeric, or the names left after the header filter are all numeric |
| Scraper.AdvancedPlayerValues | webscraping/bref_scraper.py:100-103 | the `.str` test on `Player` after the header filter is decided on the raw table's non-header rows |
| Scraper.AdvancedNormalized | webscraping/bref_scraper.py:99-103 | `NormalizeAdvanced`'s result lacks both spacers and keeps every other column, in order; its rows are the non-header rows in order, each with `Player` star-stripped and every other cell as it was |
| Scraper.AdvancedPlayersStripped | webscraping/bref_scraper.py:103 | each result row's `Player` is its kept row's name with every `*` removed when that was text, and NaN otherwise; no present name contains `*` |
| Scraper.TagEastSpec | webscraping/bref_scraper.py:138-140 | `TagEast` fails exactly on a `TEAM_NAME` clash; otherwise every row is tagged `East`, `Eastern Conference` becomes `TEAM_NAME`, and other cells stay |
| Scraper.TagWestSpec | webscraping/bref_scraper.py:142-144 | `TagWest` does the same for West, with the rename before the tag |
| Scraper.UnionStandingsRows | webscraping/bref_scraper.py:150 | `UnionStandings` fails exactly when a tagging fails; otherwise it has every East row, then every West row, each padded to the union's columns |
| Scraper.UnionStandingsConference | webscraping/bref_scraper.py:138-150 | rows from the East table carry `Conference = East`, and the rows after them carry `West` |
| Scraper.UnionStandingsTeamNames | webscraping/bref_scraper.py:138-150 | each union row's `TEAM_NAME` is its source row's `Eastern Conference` or `Western Conference` cell |
| Scraper.Abbreviation | webscraping/bref_scraper.py:157 | a team abbreviation, when there is one, contains no `/` |
| Scraper.AbbreviationOfLink | webscraping/bref_scraper.py:157 | the abbreviation of a link made of at least three `/`-free parts is its part 2 |
| Scraper.AbbreviationFails | webscraping/bref_scraper.py:157 | there is no part 2 (`IndexError`) exactly when the link has fewer than two `/` |
| Scraper.AbbreviationExample | webscraping/bref_scraper.py:157 | `/teams/BOS/2000.html` gives `BOS` |
| Scraper.TeamsTable | webscraping/bref_scraper.py:157-159 | the team table fails exactly when an anchor has no `href` or a short link; otherwise it has one (abbreviation, text) row per anchor, in order |
| Scraper.TeamsDeduplicated | webscraping/bref_scraper.py:160 | after `drop_duplicates`, each anchor's pair is there exactly once and nothing else is |
| Scraper.StandingsPlan | webscraping/bref_scraper.py:162 | the inner join on `TEAM_NAME` cannot fail and appends exactly `TEAM_ABBREVIATION` to the standings columns |
| Scraper.TeamJoinRow | webscraping/bref_scraper.py:162 | every joined row extends a standings row with the abbreviation of a team row of the same name |
| Scraper.JoinTeamsRows | webscraping/bref_scraper.py:151-162 | `JoinTeams`: every final standings row has a star-free name equal to some anchor's text, carries that anchor's abbreviation, and keeps its union row's other cells |
| Scraper.JoinTeamsFails | webscraping/bref_scraper.py:151-162 | `JoinTeams` fails exactly when `TEAM_NAME` is missing or numeric, an anchor has no `href` or a short link, or the merge suffixes clash |
| Scraper.TeamMergeFails | webscraping/bref_scraper.py:162 | the team merge fails exactly when the union already has `TEAM_ABBREVIATION` and also `TEAM_ABBREVIATION_x` or `TEAM_ABBREVIATION_y` |
| Scraper.JoinTeamsIs | webscraping/bref_scraper.py:151-162 | `JoinTeams` equals the reference join: for each union row in order, its star-stripped row once per distinct team pair of that name, in pair order, with the pair's abbreviation |
| Scraper.TeamJoinSpecAppend | webscraping/bref_scraper.py:162 | the reference join distributes over the union rows, so union order is kept |
| Scraper.JoinTeamsComplete | webscraping/bref_scraper.py:151-162 | conversely, a union row whose stripped name is some anchor's text appears in the output with that anchor's abbreviation |
| Scraper.StandingsRows | webscraping/bref_scraper.py:134-162 | `NormalizeStandings`: the same for the whole standings normalizer, from the East and West tables |
| Scraper.StandingsFails | webscraping/bref_scraper.py:134-162 | `NormalizeStandings` fails exactly when a conference table already has `TEAM_NAME` beside its team column, or the team join fails on the union |
| Scraper.ExtractRookiesOutcome | webscraping/bref_scraper.py:24-45 | `ExtractRookies`, like `extract_rookies_data`, returns `None` exactly after an HTTP error, another failure or a failing normalization, and the empty table when the table is absent |
| Scraper.ExtractRoyOutcome | webscraping/bref_scraper.py:63-77 | `ExtractRoy`, like `extract_roy_awards`, returns `None` exactly after an error, the empty table when the table is absent, and the parsed table otherwise |
| Scraper.ExtractAdvancedOutcome | webscraping/bref_scraper.py:95-117 | `ExtractAdvanced`, like `extract_advanced_stats`, returns `None` exactly after an error or a failing normalization, and the empty table when the table is absent |
| Scraper.ExtractStandingsOutcome | webscraping/bref_scraper.py:137-176 | `ExtractStandings`, like `extract_standings`, returns `None` after an error, the empty table unless both conference tables are found, and the normalized standings otherwise |
| Preprocessing.CollectedNext | webscraping/data_preprocessing.py:14-19 | one more loop year appends that year's tagged table when it gave one, and nothing otherwise |
| Preprocessing.Historical | webscraping/data_preprocessing.py:11-23 | the loop returns the concatenation of the year-tagged tables of `[start, end)`, in year order, skipping the years that gave `None` |
| Preprocessing.HistoricalRoyAwards | webscraping/data_preprocessing.py:7-25 | `historical_roy_awards` is that loop over `extract_roy_awards` |
| Preprocessing.HistoricalAdvancedStats | webscraping/data_preprocessing.py:27-45 | `historical_advanced_stats` is that loop over `extract_advanced_stats` |
| Preprocessing.HistoricalStandings | webscraping/data_preprocessing.py:47-65 | `historical_standings` is that loop over `extract_standings` |
| Preprocessing.HistoricalFails | webscraping/data_preprocessing.py:23 | the concatenation fails exactly when every year gave `None` |
| Preprocessing.CollectedRows | webscraping/data_preprocessing.py:17-19 | the collected tables have as many rows as the years that gave a table, together |
| Preprocessing.HistoricalRowCount | webscraping/data_preprocessing.py:17-23 | the result's row count is the sum of the non-`None` years' row counts |
| Preprocessing.TaggedRows | webscraping/data_preprocessing.py:18 | every row of a table that `TagYear` tagged with year `y` has `year = y`, also once padded to the union's columns |
| Preprocessing.HistoricalTagged | webscraping/data_preprocessing.py:14-23 | the result has a `year` column, every row's year is in `[start, end)`, and years never decrease down the rows |
| Preprocessing.HistoricalYear | webscraping/data_preprocessing.py:17-23 | the rows with `year = y` are exactly year `y`'s rows, in order (none when that year gave `None`) |
| Preprocessing.MergeDropRemove | webscraping/data_preprocessing.py:91-96 | `JoinAdvanced` (lines 91-92) and `JoinStandings` (lines 95-96) are this left join and drop with their key lists; it fails exactly when the merge fails; otherwise no column name contains `remove` |
| Preprocessing.MergeDropRemoveLeft | webscraping/data_preprocessing.py:91-92 | with unique right keys, output row `k` keeps every cell of left row `k` whose column name has no `remove` |
| Preprocessing.MergeDropRemoveRight | webscraping/data_preprocessing.py:95-96 | with unique right keys, a right-only column of output row `k` is null when the row is unmatched, and is the match's cell otherwise |
| Preprocessing.MergeDropRemoveKeepsRows | webscraping/data_preprocessing.py:91-92 | the join and drop have at least as many rows as the left table |
| Preprocessing.JoinLayout | webscraping/data_preprocessing.py:91-92 | the output has `LeftOffset(|left|)` rows, and left row `k` starts a block at `LeftOffset(k)` that ends before `LeftOffset(k+1)`, so the blocks follow the left order |
| Preprocessing.MergeDropRemoveBlockLeft | webscraping/data_preprocessing.py:91-92 | every output row of left row `k`'s block keeps left row `k`'s cell in each column whose name has no `remove` |
| Preprocessing.MergeDropRemoveBlockRight | webscraping/data_preprocessing.py:91-92 | block row `j` of left row `k` carries match `j`'s cell in each right-only column |
| Preprocessing.MergeDropRemoveUnmatched | webscraping/data_preprocessing.py:95-96 | an unmatched left row's output row is null in every right-only column |
| Preprocessing.MasterTableColumns | webscraping/data_preprocessing.py:90-113 | `MasterTable` fails exactly when a join fails or a `to_drop` name is absent; otherwise it has none of the 12 names and no `remove` name, keeps every other column, and keeps the joined rows' cells |
| Preprocessing.FillAllCells | webscraping/data_preprocessing.py:117-120 | successive fills fail exactly when a column is missing; otherwise each cell is its fill result and the shape is unchanged |
| Preprocessing.FillMasterFails | webscraping/data_preprocessing.py:116-120 | `FillMaster` fails exactly when a fill column is missing or `W` or `L` is entirely null |
| Preprocessing.FillMasterCells | webscraping/data_preprocessing.py:116-120 | in `FillMaster`, null `W`/`L` cells get the rounded means, null `W/L%` cells the mean, and null `3P%`/`3PAr` cells 0; non-null cells and every other column are unchanged |
| Preprocessing.FillMasterOthers | webscraping/data_preprocessing.py:116-120 | the columns that are not filled are unchanged |
| Preprocessing.FillMasterNoNulls | webscraping/data_preprocessing.py:117-120 | after the fill, `W`, `L`, `3P%` and `3PAr` have no nulls, and `W/L%` has none unless it was entirely null |
| Preprocessing.CleanMasterShape | webscraping/data_preprocessing.py:90-120 | `CleanMaster`'s final table has none of the dropped columns, no `remove` column, all five fill columns, and no null `W`, `L`, `3P%` or `3PAr` |

## Left out

- Fetching, `raise_for_status`, BeautifulSoup lookups and `pd.read_html` (webscraping/bref_scraper.py:16-25, 56-64, 87-96, 128-142, 154) are network I/O and foreign parsing. The page outcome, the located table and the anchor list are inputs.
- `time.sleep`, `tqdm` and `print` are pacing and display only. So is `pd.set_option` (webscraping/bref_scraper.py:7).
- The module-level constants 1979 and 2024 and the CSV writes and re-reads (webscraping/data_preprocessing.py:68-87, 122) are file I/O. The aggregators take the year range as parameters, and the join stage takes the three tables. Dtype changes from the CSV round trip are not modelled.
- `reset_index(drop=True)` (webscraping/bref_scraper.py:150) is not modelled, because the model has no row index.
- Floating point is not modelled: cells hold text or integers.
- Preprocessing.FillMaster: the means `round(mean)` and `mean` are not computed. They are passed in as `Means`, and only whether a column is entirely null (mean NaN) is decided from the table.
- Preprocessing.FillMaster: all means are read from the table before any fill. The code also reads each mean before its own column is filled, and a fill of one column does not change another column's mean, so this matches.
- Frames.RenameColumn: pandas allows a rename onto an existing name and then holds two columns with one name. The model has distinct column names, so it treats that as a failure. The same goes for merge suffixes that clash (Merging.MergeFails).
- Scraper.TextColumn: pandas decides whether a parsed column is text by dtype inference. The model approximates this: a column is text when it has no rows or holds some text cell.
- Preprocessing.MergeDropRemoveLeft: stated for right-hand tables with unique keys, where output row `k` is left row `k`'s row. With repeated keys, Preprocessing.JoinLayout and Preprocessing.MergeDropRemoveBlockLeft state the same per block.
- Preprocessing.MergeDropRemoveRight: stated for unique right keys in the same way. With repeated keys, Preprocessing.MergeDropRemoveBlockRight and Preprocessing.MergeDropRemoveUnmatched state it per block.
- Scraper.JoinTeamsRows: stated for a union without a `TEAM_ABBREVIATION` column of its own, which the parsed conference tables do not have. With one, the merge suffixes both copies, and only Scraper.JoinTeamsFails and Scraper.TeamMergeFails cover that case.
- Scraper.JoinTeamsIs: stated for a union without a `TEAM_ABBREVIATION` column, as above.
- Scraper.JoinTeamsComplete: stated for a union without a `TEAM_ABBREVIATION` column, as above.
- Scraper.StandingsRows: stated for a union without a `TEAM_ABBREVIATION` column, as above.
- Preprocessing.FillMasterNoNulls: `W/L%` can stay null when the column was entirely null, because `fillna(NaN)` fills nothing.
- The `a_tags is not None` else-branch (webscraping/bref_scraper.py:156, 166-168) is dead code, because `soup.select` always returns a list. The model always joins.
- webscraping/data_collection.py is not part of this model. It calls a function that `bref_scraper.py` does not define.
- Nothing here relates the extractors' results across years beyond tagging: for example, the model does not claim that the join keys are non-null.
