/** The transfers summary table (app.py:102-108, 112, 117): `teams_data`
    pivoted to one row per (team, manager) and one column per gameweek of
    `num_transfers`, a `total_transfers` column, sorted by that total
    descending, and the missing cells filled with 0. */
module Transfers {
  import opened Types
  import opened Seqs
  import opened Ordering
  import opened League
  import opened Pivot
  import opened Columns
  import opened Text
  import Points

  /** The pivot's row index: `['team_name', 'manager_name']`. */
  datatype TransfersKey = TransfersKey(teamName: string, managerName: string)

  datatype TransfersRow = TransfersRow(key: TransfersKey, cells: seq<int>, total: int)

  /** `gameweeks` are the labels of the `GW <n>` columns, in column order. */
  datatype TransfersTable = TransfersTable(gameweeks: seq<int>, rows: seq<TransfersRow>)

  function KeyOf(r: GameweekRecord): TransfersKey {
    TransfersKey(r.teamName, r.managerName)
  }

  function TotalOf(row: TransfersRow): int {
    row.total
  }

  function Cells(records: seq<GameweekRecord>): seq<Cell<TransfersKey>> {
    seq(|records|, i requires 0 <= i < |records| =>
      Cell(KeyOf(records[i]), records[i].gameweek, records[i].numTransfers))
  }

  /** The row key of each record, in record order. */
  function ManagerKeys(records: seq<GameweekRecord>): seq<TransfersKey> {
    seq(|records|, i requires 0 <= i < |records| => KeyOf(records[i]))
  }

  /** The distinct row keys, in order of first appearance. */
  function Keys(records: seq<GameweekRecord>): seq<TransfersKey> {
    FirstOccurrences(ManagerKeys(records))
  }

  function RowKeys(rows: seq<TransfersRow>): seq<TransfersKey> {
    seq(|rows|, i requires 0 <= i < |rows| => rows[i].key)
  }

  /** `fillna(0)`: a gameweek the manager has no record for shows 0 transfers. */
  function Filled(row: map<int, int>, cols: seq<int>): seq<int> {
    seq(|cols|, j requires 0 <= j < |cols| => if cols[j] in row then row[cols[j]] else 0)
  }

  /** `iloc[:, 2:].sum(axis=1)`, taken before `fillna`: the missing cells are skipped. */
  function SumPresent(row: map<int, int>, cols: seq<int>): int {
    if cols == [] then 0
    else
      var g := cols[|cols| - 1];
      SumPresent(row, cols[..|cols| - 1]) + (if g in row then row[g] else 0)
  }

  /** Skipping the missing cells adds up to the same as filling them with 0. */
  lemma {:induction false} SumPresentIsSumFilled(row: map<int, int>, cols: seq<int>)
    ensures SumPresent(row, cols) == Sum(Filled(row, cols))
  {
    if cols != [] {
      var front := cols[..|cols| - 1];
      SumPresentIsSumFilled(row, front);
      assert Filled(row, cols)[..|cols| - 1] == Filled(row, front);
    }
  }

  function RowOf(p: map<TransfersKey, map<int, int>>, k: TransfersKey, cols: seq<int>): TransfersRow
    requires k in p
  {
    TransfersRow(k, Filled(p[k], cols), SumPresent(p[k], cols))
  }

  function Rows(p: map<TransfersKey, map<int, int>>, keys: seq<TransfersKey>, cols: seq<int>): seq<TransfersRow>
    requires forall i :: 0 <= i < |keys| ==> keys[i] in p
  {
    seq(|keys|, i requires 0 <= i < |keys| => RowOf(p, keys[i], cols))
  }

  /** The table, or the error pivoting no records raises. */
  function TransfersTableOf(records: seq<GameweekRecord>): (r: Result<TransfersTable>)
    ensures r.Ok? <==> records != []
    ensures r.Err? ==> r.error == NoRecords
    ensures r.Ok? ==> StrictlyAscending(r.value.gameweeks) && NonIncreasing(r.value.rows, TotalOf)
  {
    if records == [] then Err(NoRecords)
    else
      var p := PivotOf(Cells(records));
      var cols := ColumnsOf(Points.Gameweeks(records));
      KeysInPivot(records);
      Ok(TransfersTable(cols, SortBy(Rows(p, Keys(records), cols), TotalOf)))
  }

  lemma KeysInPivot(records: seq<GameweekRecord>)
    ensures forall i :: 0 <= i < |Keys(records)| ==> Keys(records)[i] in PivotOf(Cells(records))
  {
    var ks := ManagerKeys(records);
    forall i | 0 <= i < |Keys(records)|
      ensures Keys(records)[i] in PivotOf(Cells(records))
    {
      var a :| 0 <= a < |ks| && ks[a] == Keys(records)[i];
      PivotCovers(Cells(records), a);
    }
  }

  /** Unlike the points table, the transfers table fails only on no records at
      all, and both tables share their gameweek columns. */
  lemma TransfersTableOk(records: seq<GameweekRecord>)
    ensures TransfersTableOf(records).Ok? <==> records != []
    ensures records == [] ==> TransfersTableOf(records) == Err(NoRecords)
    ensures Points.PointsTableOf(records).Ok? ==>
              TransfersTableOf(records).Ok? &&
              TransfersTableOf(records).value.gameweeks == Points.PointsTableOf(records).value.gameweeks
  {
  }

  /** A row of the sorted table is one of the rows before sorting. */
  lemma SortedRowFromPivot(records: seq<GameweekRecord>, i: nat)
    requires TransfersTableOf(records).Ok? && i < |TransfersTableOf(records).value.rows|
    ensures var t := TransfersTableOf(records).value;
            var p := PivotOf(Cells(records));
      && t.rows[i].key in Keys(records) && t.rows[i].key in p
      && t.rows[i] == RowOf(p, t.rows[i].key, t.gameweeks)
  {
    var t := TransfersTableOf(records).value;
    var p, cols := PivotOf(Cells(records)), ColumnsOf(Points.Gameweeks(records));
    KeysInPivot(records);
    var unsorted := Rows(p, Keys(records), cols);
    assert t.rows[i] in multiset(t.rows);
    assert t.rows[i] in unsorted;
  }

  /** Every record's manager has a row. */
  lemma RowOfRecord(records: seq<GameweekRecord>, a: nat)
    requires TransfersTableOf(records).Ok? && a < |records|
    ensures exists i :: 0 <= i < |TransfersTableOf(records).value.rows| &&
                        TransfersTableOf(records).value.rows[i].key == KeyOf(records[a])
  {
    var rows := TransfersTableOf(records).value.rows;
    var p, cols := PivotOf(Cells(records)), ColumnsOf(Points.Gameweeks(records));
    var ks := ManagerKeys(records);
    KeysInPivot(records);
    var unsorted := Rows(p, Keys(records), cols);
    assert rows == SortBy(unsorted, TotalOf);
    assert ks[a] in Keys(records);
    var n :| 0 <= n < |Keys(records)| && Keys(records)[n] == ks[a];
    assert unsorted[n] in multiset(rows);
    var i :| 0 <= i < |rows| && rows[i] == unsorted[n];
  }

  /** No manager has two rows. */
  lemma RowKeysDistinct(records: seq<GameweekRecord>)
    requires TransfersTableOf(records).Ok?
    ensures Distinct(RowKeys(TransfersTableOf(records).value.rows))
  {
    var rows := TransfersTableOf(records).value.rows;
    var p, cols := PivotOf(Cells(records)), ColumnsOf(Points.Gameweeks(records));
    KeysInPivot(records);
    var unsorted := Rows(p, Keys(records), cols);
    assert rows == SortBy(unsorted, TotalOf);
    assert Distinct(unsorted) by {
      assert Distinct(Keys(records));
      forall i, j | 0 <= i < j < |unsorted| ensures unsorted[i] != unsorted[j] {
        assert unsorted[i].key == Keys(records)[i];
      }
    }
    DistinctPermutation(unsorted, rows);
    forall i, j | 0 <= i < j < |rows|
      ensures rows[i].key != rows[j].key
    {
      SortedRowFromPivot(records, i);
      SortedRowFromPivot(records, j);
    }
  }

  /** A manager has a row exactly when some record is theirs. */
  lemma RowKeyOfManager(records: seq<GameweekRecord>, k: TransfersKey)
    requires TransfersTableOf(records).Ok?
    ensures k in RowKeys(TransfersTableOf(records).value.rows) <==> k in ManagerKeys(records)
  {
    var t := TransfersTableOf(records).value;
    var rk, mk := RowKeys(t.rows), ManagerKeys(records);
    if k in rk {
      var i :| 0 <= i < |rk| && rk[i] == k;
      SortedRowFromPivot(records, i);
      assert k in mk;
    }
    if k in mk {
      var a :| 0 <= a < |mk| && mk[a] == k;
      RowOfRecord(records, a);
      var i :| 0 <= i < |t.rows| && t.rows[i].key == KeyOf(records[a]);
      assert rk[i] == k;
    }
  }

  /** One row per manager: the row keys are the managers' keys, each once;
      every row has a cell per column and a total that is the sum of its
      cells; and the rows are ordered by that total, highest first. */
  lemma TransfersRows(records: seq<GameweekRecord>)
    requires TransfersTableOf(records).Ok?
    ensures var t := TransfersTableOf(records).value;
      && NonIncreasing(t.rows, TotalOf)
      && (forall i :: 0 <= i < |t.rows| ==>
            |t.rows[i].cells| == |t.gameweeks| && t.rows[i].total == Sum(t.rows[i].cells))
      && Distinct(RowKeys(t.rows))
      && (forall k :: k in RowKeys(t.rows) <==> k in ManagerKeys(records))
  {
    var t := TransfersTableOf(records).value;
    var rk, mk := RowKeys(t.rows), ManagerKeys(records);
    forall i | 0 <= i < |t.rows|
      ensures |t.rows[i].cells| == |t.gameweeks| && t.rows[i].total == Sum(t.rows[i].cells)
    {
      SortedRowFromPivot(records, i);
      SumPresentIsSumFilled(PivotOf(Cells(records))[t.rows[i].key], t.gameweeks);
    }
    forall k
      ensures k in rk <==> k in mk
    {
      RowKeyOfManager(records, k);
    }
    RowKeysDistinct(records);
  }

  /** The cell in row `i`, column `j` holds the number of transfers of a record
      of that row's manager and that column's gameweek, or 0 when there is no
      such record. */
  lemma CellFromRecord(records: seq<GameweekRecord>, i: nat, j: nat)
    requires TransfersTableOf(records).Ok?
    requires i < |TransfersTableOf(records).value.rows| && j < |TransfersTableOf(records).value.gameweeks|
    ensures var t := TransfersTableOf(records).value;
      && j < |t.rows[i].cells|
      && ((exists a :: 0 <= a < |records| && KeyOf(records[a]) == t.rows[i].key &&
                       records[a].gameweek == t.gameweeks[j] && records[a].numTransfers == t.rows[i].cells[j]) ||
          (t.rows[i].cells[j] == 0 &&
           forall a :: 0 <= a < |records| ==>
             KeyOf(records[a]) != t.rows[i].key || records[a].gameweek != t.gameweeks[j]))
  {
    var t := TransfersTableOf(records).value;
    var cells := Cells(records);
    SortedRowFromPivot(records, i);
    var k, p, g := t.rows[i].key, PivotOf(cells), t.gameweeks[j];
    if g in p[k] {
      assert t.rows[i].cells[j] == p[k][g];
      PivotOnlyCells(cells, k, g);
      var a :| 0 <= a < |cells| && cells[a].row == k && cells[a].column == g && cells[a].value == p[k][g];
      assert KeyOf(records[a]) == k && records[a].gameweek == g;
    } else {
      forall a | 0 <= a < |records|
        ensures KeyOf(records[a]) != k || records[a].gameweek != g
      {
        PivotCovers(cells, a);
      }
    }
  }

  /** When no two records share a manager and a gameweek, a record's number of
      transfers is found in its manager's row under its gameweek's column. */
  lemma RecordTransfersInTable(records: seq<GameweekRecord>, a: nat)
    requires TransfersTableOf(records).Ok? && UniqueCells(Cells(records)) && a < |records|
    ensures var t := TransfersTableOf(records).value;
      exists i, j :: 0 <= i < |t.rows| && 0 <= j < |t.gameweeks| && j < |t.rows[i].cells| &&
                     t.rows[i].key == KeyOf(records[a]) && t.gameweeks[j] == records[a].gameweek &&
                     t.rows[i].cells[j] == records[a].numTransfers
  {
    var t := TransfersTableOf(records).value;
    RowOfRecord(records, a);
    var i :| 0 <= i < |t.rows| && t.rows[i].key == KeyOf(records[a]);
    Points.ColumnOfRecord(records, a);
    var j :| 0 <= j < |t.gameweeks| && t.gameweeks[j] == records[a].gameweek;
    SortedRowFromPivot(records, i);
    PivotOfUnique(Cells(records), a);
    assert t.rows[i].cells[j] == records[a].numTransfers;
  }

  /** A manager who made no transfer in any gameweek has a row of zeros and a
      total of 0. */
  lemma QuietManager(records: seq<GameweekRecord>, i: nat)
    requires TransfersTableOf(records).Ok? && i < |TransfersTableOf(records).value.rows|
    requires forall a :: 0 <= a < |records| && KeyOf(records[a]) == TransfersTableOf(records).value.rows[i].key ==>
               records[a].numTransfers == 0
    ensures var row := TransfersTableOf(records).value.rows[i];
      (forall j :: 0 <= j < |row.cells| ==> row.cells[j] == 0) && row.total == 0
  {
    var t := TransfersTableOf(records).value;
    var row := t.rows[i];
    TransfersRows(records);
    forall j | 0 <= j < |row.cells|
      ensures row.cells[j] == 0
    {
      CellFromRecord(records, i, j);
    }
    SumOfZeros(row.cells);
  }

  /** The column headers after renaming: the index columns, one `GW <n>` per
      gameweek, then the total. */
  function Headers(t: TransfersTable): seq<string> {
    ["Team Name", "Manager Name"] + GameweekHeaders(t.gameweeks) + ["Total Transfers"]
  }

  lemma HeadersDistinct(gameweeks: seq<int>)
    requires StrictlyAscending(gameweeks)
    ensures Distinct(["Team Name", "Manager Name"] + GameweekHeaders(gameweeks) + ["Total Transfers"])
  {
    var gws := GameweekHeaders(gameweeks);
    GameweekHeadersDistinct(gameweeks);
    var hs := ["Team Name", "Manager Name"] + gws + ["Total Transfers"];
    var n := |gws|;
    forall i, j | 0 <= i < j < |hs|
      ensures hs[i] != hs[j]
    {
      if 2 <= j < 2 + n {
        assert hs[j] == gws[j - 2];
        if i >= 2 {
          assert hs[i] == gws[i - 2];
        } else {
          assert hs[i][0] != 'G';
        }
      } else if j == 2 + n && 2 <= i {
        assert hs[i] == gws[i - 2];
        assert hs[j][0] != 'G';
      }
    }
  }

  /** The table built has one header per column and no two alike. */
  lemma TransfersHeaders(records: seq<GameweekRecord>)
    requires TransfersTableOf(records).Ok?
    ensures var t := TransfersTableOf(records).value;
      |Headers(t)| == 3 + |t.gameweeks| && Distinct(Headers(t))
  {
    HeadersDistinct(TransfersTableOf(records).value.gameweeks);
  }
}
