# FPL mini-league dashboard: a verified model of the aggregation core

`app.py` builds a dashboard for one Fantasy Premier League mini-league. It
fetches the player catalog and turns it into a player directory. For every
manager in the standings, it then collects:

- the squad of their latest gameweek;
- their transfer log, grouped by gameweek;
- one record per gameweek of their history.

From those records it builds three tables, each sorted in descending order:

- **Gameweek points:** one row per team and one `GW <n>` column per gameweek.
- **Transfers summary:** the same layout, with missing cells filled with 0 and a total column.
- **Most-owned players:** each player's ownership as a fraction and a percentage.

This project models that core in Dafny:

- `directory.dfy`: the player directory.
- `owners.dfy`: the `player_ownership` counter.
- `grouping.dfy`: `transfers_by_gw`.
- `collector.dfy`: the `get_team_data` manager loop.
- `pivot.dfy` and `columns.dfy`: the pivot and its gameweek columns.
- `points.dfy`, `transfers.dfy`, `shares.dfy`: the three tables.
- `ordering.dfy`: the descending sort.
- `text.dfy`: the `GW <n>` and `count / total` texts.
- `report.dfy`: the whole pipeline, and the finding below.
- `types.dfy`, `seqs.dfy`, `league.dfy`: shared types and helpers.

The fetched data are inputs. `LeagueMember` carries one standings row, that
manager's `current` history, the pick lists by event and the transfer log.

The loops of `get_team_data` are methods with loop invariants. Each one is
proved equal to a specification function:

- `GetTeamData` against `CollectionOf`, which recurses over the standings;
- `CountPicks` against `TallyOf`, built from the key order `FirstOccurrences` and the map comprehension `Counts`, through the pick-by-pick fold `Counted`;
- `GroupTransfers` against `GroupsOf`, the first lookup failure or the comprehension `Grouped`;
- `EmitRecords` against `ManagerRecords`, a comprehension over the history.

The comprehensions, pivots, sums and sorts are functions, and lemmas state
what they promise.

Every fatal error of the source is an `Err` of `Types.Error`:

| error | source | cause |
|---|---|---|
| `UnknownPlayer` | app.py:65, 69, 123 | a `KeyError` on the directory |
| `EmptyHistory` | app.py:41 | the `IndexError` of `current[-1]` |
| `MissingPicks` | app.py:41-43 | the picks of the last event are not available |
| `MissingPoints` | app.py:116 | a missing points cell breaks the integer cast |
| `NoRecords` | app.py:96, 120 | no records, so there is nothing to pivot |
| `NoPicks` | app.py:131 | an empty ownership table has no column to sort by |

Three behaviours of `app.py` the model keeps:

- **Sort order.** The sorts are pandas' default `sort_values`, which is not stable. Only "a permutation whose key never increases" is claimed, not a stable tie-break.
- **Chip value.** `gw.get('chip', 'None')` yields the string `"None"` only when the key is absent. A `chip` key holding JSON null yields Python's `None`, modelled as `Option.None`.
- **Ownership denominator.** It counts distinct team names, not managers. `BuildReport` and `ReportAsWritten` divide as the code does. `ReportOf` is the corrected report over the number of managers (see Findings).

## Model

| member | source | states |
|---|---|---|
| Directory.BuildDirectory | app.py:18 | the keys are exactly the catalog ids; an element not followed by another with its id is stored under that id with its `web_name` and `now_cost` (a later duplicate wins) |
| Directory.DirectoryOfDistinctIds | app.py:18 | when the catalog ids are distinct, every element is found under its own id |
| Owners.TallyContents | app.py:46-51 | the counter's keys are exactly the picked ids, each listed once in key order, and each count is that id's number of occurrences (at least 1) |
| Owners.TallySnoc | app.py:48-51 | one more pick adds 1 to an existing count, or inserts the id with count 1 at the end of the key order |
| Owners.CountedIsTally | app.py:46-51 | counting pick by pick gives the tally of the whole pick list |
| Owners.CountPicks | app.py:46-51 | the picks loop turns the tally of the earlier picks into the tally of the earlier picks followed by this squad |
| Owners.TallyBound | app.py:46-51 | when no squad repeats a player, no count exceeds the number of squads |
| Owners.CountBound | app.py:46-51 | when no squad repeats a player, an id occurs in the concatenated picks at most as often as there are squads |
| Grouping.FirstFailure | app.py:59-71 | no failure exactly when every transfer resolves; otherwise the failure is the lookup error of the first unresolvable transfer, with `element_in` checked before `element_out` |
| Grouping.InGameweek | app.py:59-63 | a gameweek's group holds only transfers of the log made in that gameweek |
| Grouping.TransferInOwnGroupOnly | app.py:60-63 | a transfer lies in the group of gameweek `e` exactly when `e` is its event |
| Grouping.InGameweekConcat | app.py:59-63 | groups keep log order: the group of a log is the group of any prefix followed by the group of the rest |
| Grouping.ResolveAllSnoc | app.py:63-72 | resolving one more transfer appends its record, with its directory names and own costs, behind the records of the earlier ones |
| Grouping.GroupedSnoc | app.py:60-72 | one more transfer appends its resolved record to its own gameweek's group (creating it if absent) and changes no other group |
| Grouping.GroupSizesSum | app.py:58-72 | the key order lists each gameweek with transfers exactly once, and the group sizes sum to the length of the log |
| Grouping.FailStep | app.py:65-69 | the first unresolvable transfer ends the loop with its lookup error |
| Grouping.GroupTransfers | app.py:58-72 | the transfer loop returns the grouped log when every transfer resolves, and the first lookup failure otherwise |
| Collector.ChipPlayed | app.py:84 | the chip is the string `"None"` when the key is absent; it is Python's `None` exactly when the key holds null; otherwise it is the chip's name (which may itself be `"None"`) |
| Collector.MemberOutcome | app.py:34-86 | one manager's processing succeeds exactly when the history is non-empty, the last event has picks and every transfer resolves; it then yields those picks and one record per history entry; otherwise an empty history fails with `EmptyHistory`, then a last event without picks with `MissingPicks`, then an unresolvable transfer with the lookup error of the first one |
| Collector.RecordFor | app.py:76-85 | `num_transfers` is the length of `transfers`, which is empty when the gameweek has no transfers |
| Collector.EmitRecords | app.py:74-86 | the history loop appends one record per history entry, in history order |
| Collector.GetTeamData | app.py:24-88 | the manager loop returns all managers' records and the tally of their last-event picks, or the error of the first manager that fails |
| Collector.CollectedOkIffMembersOk | app.py:33-86 | the run succeeds exactly when every manager's processing succeeds |
| Collector.CollectedError | app.py:33-86 | a failed run reports the error of a manager whose predecessors all succeeded |
| Collector.UnknownPlayerAborts | app.py:65-69 | a transfer naming a player missing from the directory fails the whole run, never skipped; when the earlier managers succeeded and this one has history and picks, the run's error is the lookup error of its first unresolvable transfer |
| Collector.CountedPicks | app.py:41-51 | every manager has a history and picks for its last event, and the picks counted are exactly those squads, in standings order |
| Collector.OwnershipOfLeague | app.py:41-51 | the ownership keys are exactly the ids in the managers' latest squads and each count is its number of occurrences; with no repeated player within a squad, no count exceeds the number of managers |
| Collector.RecordCount | app.py:74-86 | the number of records is the sum of the managers' history lengths |
| Collector.RecordAt | app.py:74-86 | the record at position (earlier managers' history length + k) carries manager i's team, manager name and total, gameweek k's event, points and chip, and exactly that gameweek's resolved transfers |
| Collector.RecordOfMember | app.py:74-86 | one manager's k-th record carries its standing fields, the k-th history entry's event, points and chip, and that gameweek's resolved transfers |
| Pivot.PivotOf | app.py:96 | the pivot (of app.py:96, and of app.py:102 on its own key) has at most one row per cell, and at least one row when there is a cell |
| Pivot.PivotOnlyRows | app.py:96 | every row key present in the pivot comes from some cell |
| Pivot.PivotCovers | app.py:96 | every cell's row and column are present in the pivot |
| Pivot.PivotOnlyCells | app.py:96 | every pivot value is the value of a cell with that row and column |
| Pivot.PivotKeepsLast | app.py:96 | the last cell for a (row, column) pair gives the pivot value |
| Pivot.PivotOfUnique | app.py:96 | when no (row, column) pair repeats, every cell's value is in the pivot |
| Columns.ColumnsOf | app.py:96 | the columns are strictly ascending and are exactly the gameweeks given |
| Points.PointsTableOf | app.py:96-116 | no records give `NoRecords`; the only other error is `MissingPoints`; a built table has strictly ascending gameweek columns and rows ordered by total points, highest first |
| Points.PointsTableOk | app.py:96-116 | the points table is built exactly when there are records and every manager has a record for every gameweek; no records give `NoRecords`, and a gap gives `MissingPoints` |
| Points.PointsColumns | app.py:96-99 | the gameweek columns are strictly ascending and are exactly the gameweeks that occur in the records |
| Points.PointsRows | app.py:96-111 | one row per (team, manager, total) key occurring in the records, no key twice, a cell per column, ordered by total points with the highest first |
| Points.CellFromRecord | app.py:96 | the cell in row i and column j holds the points of a record of that row's manager in that column's gameweek |
| Points.RecordPointsInTable | app.py:96 | when (manager, gameweek) pairs are unique, every record's points appear in its manager's row under its gameweek's column |
| Points.PointsHeaders | app.py:99 | the header is `Team Name`, `Manager Name`, `Total Points`, then one `GW <n>` per column, with no duplicate |
| Text.NatToStringRoundTrip | app.py:99 | reading the decimal text of a natural number gives the number back |
| Text.IntToStringInjective | app.py:99 | distinct integers have distinct decimal texts |
| Text.GameweekHeaderInjective | app.py:99 | distinct gameweeks give distinct `GW <n>` names |
| Text.GameweekHeadersDistinct | app.py:99 | the header list of distinct gameweeks has no duplicate, and each name starts with `G` |
| Text.FractionTextInjective | app.py:124 | the text `count / total` determines both the count and the total |
| Transfers.TransfersTableOf | app.py:102-117 | the table is built exactly when there are records, fails only with `NoRecords`, and has strictly ascending gameweek columns and rows ordered by total transfers, highest first |
| Transfers.TransfersTableOk | app.py:102 | the transfers table is built exactly when there are records, and it has the same gameweek columns as the points table whenever that table is built |
| Transfers.SumPresentIsSumFilled | app.py:105-117 | the total over the present cells equals the sum of the row with its missing cells filled with 0 |
| Transfers.TransfersRows | app.py:102-112 | one row per (team, manager) key occurring in the records, no key twice, a cell per column, a total equal to the sum of its cells, ordered by total with the highest first |
| Transfers.CellFromRecord | app.py:102-117 | a cell holds the `num_transfers` of a record of that manager and gameweek, or 0 when there is no such record |
| Transfers.RecordTransfersInTable | app.py:102 | when (manager, gameweek) pairs are unique, every record's transfer count appears in its row under its gameweek's column |
| Transfers.QuietManager | app.py:102-117 | a manager with no transfers keeps a row, with every cell 0 and total 0 |
| Transfers.TransfersHeaders | app.py:108 | the header is `Team Name`, `Manager Name`, one `GW <n>` per column, then `Total Transfers`, with no duplicate |
| Shares.TeamsOfRecords | app.py:120 | `total_teams` is 0 exactly when there are no records |
| Shares.SharesTable | app.py:120-131 | a built table has one row per owned id, ordered by count, highest first; a failure is `NoRecords`, `NoPicks`, or `UnknownPlayer` of an owned id missing from the directory |
| Shares.SharesTableDenominators | app.py:120-131 | two denominators that are both zero or both positive give the same error, or both a table |
| Shares.SharesTableOk | app.py:120-131 | the ownership table is built exactly when there are records, some pick, and every owned id in the directory; otherwise the error is `NoRecords`, `UnknownPlayer` of the first unknown id in key order, or `NoPicks` |
| Shares.SharesRows | app.py:121-131 | one row per owned id with its directory name, its count and the shared denominator, ordered by count with the highest first |
| Shares.SharesByPercentage | app.py:125-131 | the rows are ordered by ownership percentage, highest first |
| Shares.SharesAtMostWhole | app.py:125 | when no count exceeds the denominator, no percentage exceeds 100 |
| Ordering.Insert | app.py:111 | inserting into a sorted list keeps it sorted by key, highest first, and adds exactly that element |
| Ordering.SortBy | app.py:111-112 | the sort is a permutation of the rows whose key never increases |
| Dashboard.BuildReport | app.py:18-131 | the pipeline builds the directory, runs the manager loop and builds the three tables over the distinct-team-name denominator, as the source does, with the first error aborting it |
| Dashboard.AssembleDenominators | app.py:96-131 | two denominators that are both zero or both positive give reports that fail alike and hold the same points and transfers tables |
| Dashboard.ReportAsWritten | app.py:90-131 | the report as the source builds it fails exactly when the corrected report fails, with the same error, and holds the same points and transfers tables |
| Dashboard.ReportOk | app.py:90-131 | for the report as the source builds it: a collection error aborts it; there are no records, and no team names, exactly when the league is empty; it is built exactly when there are records, the points table has no gap, every owned player is known, and some player was picked |
| Dashboard.ReportShares | app.py:120-131 | the ownership rows of the report as the source builds it are the ownership table over the number of distinct team names |
| Dashboard.CorrectedShares | app.py:120-131 | the ownership rows of the corrected report are the ownership table over the number of managers |
| Dashboard.ReportFromTables | app.py:96-131 | when each table is built, the report holds exactly those three tables |
| Dashboard.LeagueRecords | app.py:74-86 | in a successful run every manager is processed and contributes one record per history entry, at least one, so there are at least as many records as managers |
| Dashboard.TeamNamesOfLeague | app.py:120 | the team names among the records are exactly the standings' team names |
| Dashboard.DistinctEntryNames | app.py:120 | with distinct team names, there are as many names as managers |
| Dashboard.DenominatorsAgree | app.py:120 | with distinct team names, `total_teams` is the number of managers and the report as written equals the corrected one |
| Dashboard.OwnedAtMostLeague | app.py:46-51 | with no player repeated within a squad, every count is between 1 and the number of managers |
| Dashboard.SharesOfLeague | app.py:120-125 | over the number of managers, every share has a count between 1 and the denominator and is at most 100% |
| Dashboard.SharedTeamNameOverCounts | app.py:120-125 | as written, two managers with one team name who both own player 7 get the row `2 / 1`, that is 200% |
| Dashboard.SharedTeamNameCorrected | app.py:120-125 | over the number of managers, the same league gets `2 / 2`, that is 100% |

## Left out

- HTTP requests, URLs and `raise_for_status` (app.py:14-16, 25-27, 36-44, 53-56) are network I/O. Their results are the inputs. The only fetch failure kept is a missing pick list for the last event (`MissingPicks`).
- Malformed JSON (a missing field such as `entry_name`) is not modelled. The inputs are typed records.
- `@st.cache_data` and all Streamlit rendering (app.py:6, 12, 137-152) are not modelled. This includes showing only two ownership columns in the third tab.
- Prices are kept in integer tenths. The `/ 10` of app.py:66, 70 is display-only floating point.
- Shares.Percentage: the ownership percentage is an exact `real`, not a floating-point value rounded by the machine.
- Pivot.PivotOf: a repeated (row, gameweek) cell keeps its last value, whereas `pivot_table` averages repeated cells. The source's emission gives each manager one record per history gameweek, so repeats come only from two managers with the same row key. In the points pivot (app.py:96) that key is team, manager name and total. In the transfers pivot (app.py:102) it is only team and manager name, so two such managers collide there even with different totals, and pandas shows the mean of their `num_transfers`. Points.RecordPointsInTable and Transfers.RecordTransfersInTable assume unique pairs.
- Points.CellFromRecord and Transfers.CellFromRecord are stated for the last-wins pivot. Where two managers share a row key, the cell holds one record's value, not the mean.
- Ordering.SortBy: no claim is made about the order of rows with equal keys, since pandas' default sort is not stable. The pivot's own lexicographic row order before sorting is not modelled; the unsorted rows are in first-occurrence order.
- Transfers.TransfersRows: the total is an integer sum. In the source, `Total Transfers` stays a float column, because the `astype(int)` at app.py:117 excludes it.
- Points.PointsTableOf: the integer cast at app.py:116 is modelled only as the `MissingPoints` failure. The points are integers already.
- Column renaming (app.py:99, 108, 134) is modelled only as the header lists `Points.Headers` and `Transfers.Headers`. The ownership table's headers are fixed text and are not modelled.

## Findings

| source | as written | input that shows it | evidently intended | confidence | as-written member | corrected member |
|---|---|---|---|---|---|---|
| app.py:120 | `total_teams` counts distinct team names in the records, so managers who share a team name count once | two managers whose teams are both called "Gegenpress" and who both own player 7 ("Salah") | the ownership denominator is the number of managers in the league | medium, not executed | Dashboard.SharedTeamNameOverCounts | Dashboard.SharesOfLeague |
