/** The gameweek points table (app.py:96-99, 111, 115-116): `teams_data`
    pivoted to one row per (team, manager, total points) and one column per
    gameweek, sorted by total points descending, every cell cast to `int`. */
module Points {
  import opened Types
  import opened Seqs
  import opened Ordering
  import opened League
  import opened Pivot
  import opened Columns
  import opened Text

  /** The pivot's row index: `['team_name', 'manager_name', 'total_points']`. */
  datatype PointsKey = PointsKey(teamName: string, managerName: string, totalPoints: int)

  datatype PointsRow = PointsRow(key: PointsKey, cells: seq<int>)

  /** `gameweeks` are the labels of the `GW <n>` columns, in column order. */
  datatype PointsTable = PointsTable(gameweeks: seq<int>, rows: seq<PointsRow>)

  function KeyOf(r: GameweekRecord): PointsKey {
    PointsKey(r.teamName, r.managerName, r.totalPoints)
  }

  function TotalOf(row: PointsRow): int {
    row.key.totalPoints
  }

  function Gameweeks(records: seq<GameweekRecord>): seq<int> {
    seq(|records|, i requires 0 <= i < |records| => records[i].gameweek)
  }

  function Cells(records: seq<GameweekRecord>): seq<Cell<PointsKey>> {
    seq(|records|, i requires 0 <= i < |records| =>
      Cell(KeyOf(records[i]), records[i].gameweek, records[i].points))
  }

  /** The row key of each record, in record order. */
  function ManagerKeys(records: seq<GameweekRecord>): seq<PointsKey> {
    seq(|records|, i requires 0 <= i < |records| => KeyOf(records[i]))
  }

  /** The distinct row keys, in order of first appearance. */
  function Keys(records: seq<GameweekRecord>): seq<PointsKey> {
    FirstOccurrences(ManagerKeys(records))
  }

  function RowKeys(rows: seq<PointsRow>): seq<PointsKey> {
    seq(|rows|, i requires 0 <= i < |rows| => rows[i].key)
  }

  /** Every row of the pivot has a value in every column: no cell is NaN. */
  predicate Complete(p: map<PointsKey, map<int, int>>, cols: seq<int>) {
    forall k, j :: k in p && 0 <= j < |cols| ==> cols[j] in p[k]
  }

  function RowOf(p: map<PointsKey, map<int, int>>, k: PointsKey, cols: seq<int>): PointsRow
    requires k in p && Complete(p, cols)
  {
    PointsRow(k, seq(|cols|, j requires 0 <= j < |cols| => p[k][cols[j]]))
  }

  function Rows(p: map<PointsKey, map<int, int>>, keys: seq<PointsKey>, cols: seq<int>): seq<PointsRow>
    requires forall i :: 0 <= i < |keys| ==> keys[i] in p
    requires Complete(p, cols)
  {
    seq(|keys|, i requires 0 <= i < |keys| => RowOf(p, keys[i], cols))
  }

  /** The table, or the error building it raises: pivoting no records finds no
      columns, and a manager without a record for some gameweek leaves a NaN
      that `astype(int)` refuses. */
  function PointsTableOf(records: seq<GameweekRecord>): (r: Result<PointsTable>)
    ensures records == [] ==> r == Err(NoRecords)
    ensures r.Err? ==> r.error == NoRecords || r.error == MissingPoints
    ensures r.Ok? ==> StrictlyAscending(r.value.gameweeks) && NonIncreasing(r.value.rows, TotalOf)
  {
    if records == [] then Err(NoRecords)
    else
      var p := PivotOf(Cells(records));
      var cols := ColumnsOf(Gameweeks(records));
      if !Complete(p, cols) then Err(MissingPoints)
      else
        KeysInPivot(records);
        Ok(PointsTable(cols, SortBy(Rows(p, Keys(records), cols), TotalOf)))
  }

  lemma KeysInPivot(records: seq<GameweekRecord>)
    ensures forall i :: 0 <= i < |Keys(records)| ==> Keys(records)[i] in PivotOf(Cells(records))
  {
    var ks := ManagerKeys(records);
    forall i | 0 <= i < |Keys(records)|
      ensures Keys(records)[i] in PivotOf(Cells(records))
    {
      var a :| 0 <= a < |ks| && ks[a] == Keys(records)[i];
      PivotCovers(Cells(records), a);
    }
  }

  /** Some record is of the manager keyed `k` in gameweek `g`. */
  predicate HasRecord(records: seq<GameweekRecord>, k: PointsKey, g: int) {
    exists c :: 0 <= c < |records| && KeyOf(records[c]) == k && records[c].gameweek == g
  }

  /** Every manager has a record for every gameweek that any manager has a record for. */
  predicate EveryManagerEveryGameweek(records: seq<GameweekRecord>) {
    forall a, b {:trigger HasRecord(records, KeyOf(records[a]), records[b].gameweek)} ::
      0 <= a < |records| && 0 <= b < |records| ==>
        HasRecord(records, KeyOf(records[a]), records[b].gameweek)
  }

  /** The gameweek of record `b` is one of the columns. */
  lemma ColumnOfRecord(records: seq<GameweekRecord>, b: nat)
    requires b < |records|
    ensures exists j :: 0 <= j < |ColumnsOf(Gameweeks(records))| &&
                        ColumnsOf(Gameweeks(records))[j] == records[b].gameweek
  {
    assert Gameweeks(records)[b] == records[b].gameweek;
    assert records[b].gameweek in ColumnsOf(Gameweeks(records));
  }

  /** Every column is the gameweek of some record. */
  lemma RecordOfColumn(records: seq<GameweekRecord>, g: int)
    requires g in ColumnsOf(Gameweeks(records))
    ensures exists b :: 0 <= b < |records| && records[b].gameweek == g
  {
    var gws := Gameweeks(records);
    assert g in gws;
    var b :| 0 <= b < |gws| && gws[b] == g;
  }

  lemma CellOfPair(records: seq<GameweekRecord>, a: nat, b: nat)
    requires a < |records| && b < |records|
    requires Complete(PivotOf(Cells(records)), ColumnsOf(Gameweeks(records)))
    ensures HasRecord(records, KeyOf(records[a]), records[b].gameweek)
  {
    var cells, cols := Cells(records), ColumnsOf(Gameweeks(records));
    PivotCovers(cells, a);
    ColumnOfRecord(records, b);
    var j :| 0 <= j < |cols| && cols[j] == records[b].gameweek;
    PivotOnlyCells(cells, KeyOf(records[a]), cols[j]);
    var c :| 0 <= c < |cells| && cells[c].row == KeyOf(records[a]) && cells[c].column == cols[j] &&
             cells[c].value == PivotOf(cells)[KeyOf(records[a])][cols[j]];
    assert KeyOf(records[c]) == KeyOf(records[a]) && records[c].gameweek == records[b].gameweek;
  }

  lemma EveryFromComplete(records: seq<GameweekRecord>)
    requires Complete(PivotOf(Cells(records)), ColumnsOf(Gameweeks(records)))
    ensures EveryManagerEveryGameweek(records)
  {
    forall a, b | 0 <= a < |records| && 0 <= b < |records|
      ensures HasRecord(records, KeyOf(records[a]), records[b].gameweek)
    {
      CellOfPair(records, a, b);
    }
  }

  lemma PivotHasColumn(records: seq<GameweekRecord>, k: PointsKey, g: int)
    requires EveryManagerEveryGameweek(records)
    requires k in PivotOf(Cells(records)) && g in ColumnsOf(Gameweeks(records))
    ensures g in PivotOf(Cells(records))[k]
  {
    var cells := Cells(records);
    PivotOnlyRows(cells, k);
    var a :| 0 <= a < |cells| && cells[a].row == k;
    RecordOfColumn(records, g);
    var b :| 0 <= b < |records| && records[b].gameweek == g;
    assert HasRecord(records, KeyOf(records[a]), records[b].gameweek);
    var c :| 0 <= c < |records| && KeyOf(records[c]) == KeyOf(records[a]) &&
             records[c].gameweek == records[b].gameweek;
    PivotCovers(cells, c);
    assert cells[c].row == k && cells[c].column == g;
  }

  lemma CompleteFromEvery(records: seq<GameweekRecord>)
    requires EveryManagerEveryGameweek(records)
    ensures Complete(PivotOf(Cells(records)), ColumnsOf(Gameweeks(records)))
  {
    var p, cols := PivotOf(Cells(records)), ColumnsOf(Gameweeks(records));
    forall k, j | k in p && 0 <= j < |cols|
      ensures cols[j] in p[k]
    {
      PivotHasColumn(records, k, cols[j]);
    }
  }

  /** The table is built exactly when there are records and none is missing;
      otherwise the error says which of the two went wrong. */
  lemma PointsTableOk(records: seq<GameweekRecord>)
    ensures PointsTableOf(records).Ok? <==> records != [] && EveryManagerEveryGameweek(records)
    ensures PointsTableOf(records) == Err(NoRecords) <==> records == []
    ensures PointsTableOf(records) == Err(MissingPoints) <==>
              records != [] && !EveryManagerEveryGameweek(records)
  {
    if records != [] {
      if EveryManagerEveryGameweek(records) {
        CompleteFromEvery(records);
      } else if Complete(PivotOf(Cells(records)), ColumnsOf(Gameweeks(records))) {
        EveryFromComplete(records);
      }
    }
  }

  /** The columns are the gameweeks that occur in the records, each once, ascending. */
  lemma PointsColumns(records: seq<GameweekRecord>)
    requires PointsTableOf(records).Ok?
    ensures var t := PointsTableOf(records).value;
      && StrictlyAscending(t.gameweeks)
      && forall g :: g in t.gameweeks <==> exists a :: 0 <= a < |records| && records[a].gameweek == g
  {
    var gws := Gameweeks(records);
    forall g
      ensures g in gws <==> exists a :: 0 <= a < |records| && records[a].gameweek == g
    {
      if g in gws {
        var a :| 0 <= a < |gws| && gws[a] == g;
      }
      if exists a :: 0 <= a < |records| && records[a].gameweek == g {
        var a :| 0 <= a < |records| && records[a].gameweek == g;
        assert gws[a] == g;
      }
    }
  }

  /** A row of the sorted table is one of the rows before sorting. */
  lemma SortedRowFromPivot(records: seq<GameweekRecord>, i: nat)
    requires PointsTableOf(records).Ok? && i < |PointsTableOf(records).value.rows|
    ensures var t := PointsTableOf(records).value;
            var p := PivotOf(Cells(records));
      && t.rows[i].key in Keys(records) && t.rows[i].key in p && Complete(p, t.gameweeks)
      && t.rows[i] == RowOf(p, t.rows[i].key, t.gameweeks)
  {
    var t := PointsTableOf(records).value;
    var p, cols := PivotOf(Cells(records)), ColumnsOf(Gameweeks(records));
    KeysInPivot(records);
    var unsorted := Rows(p, Keys(records), cols);
    assert t.rows == SortBy(unsorted, TotalOf);
    SortedElement(unsorted, TotalOf, i);
    var n :| 0 <= n < |unsorted| && unsorted[n] == t.rows[i];
    assert unsorted[n] == RowOf(p, Keys(records)[n], cols);
  }

  /** Every record's manager has a row. */
  lemma RowOfRecord(records: seq<GameweekRecord>, a: nat)
    requires PointsTableOf(records).Ok? && a < |records|
    ensures exists i :: 0 <= i < |PointsTableOf(records).value.rows| &&
                        PointsTableOf(records).value.rows[i].key == KeyOf(records[a])
  {
    var rows := PointsTableOf(records).value.rows;
    var p, cols := PivotOf(Cells(records)), ColumnsOf(Gameweeks(records));
    var ks := ManagerKeys(records);
    KeysInPivot(records);
    var unsorted := Rows(p, Keys(records), cols);
    assert rows == SortBy(unsorted, TotalOf);
    assert ks[a] in Keys(records);
    var n :| 0 <= n < |Keys(records)| && Keys(records)[n] == ks[a];
    assert unsorted[n] in multiset(rows);
    var i :| 0 <= i < |rows| && rows[i] == unsorted[n];
  }

  /** Every row is a manager's who has a record. */
  lemma RecordOfRow(records: seq<GameweekRecord>, i: nat)
    requires PointsTableOf(records).Ok? && i < |PointsTableOf(records).value.rows|
    ensures var t := PointsTableOf(records).value;
      && |t.rows[i].cells| == |t.gameweeks|
      && exists a :: 0 <= a < |records| && KeyOf(records[a]) == t.rows[i].key
  {
    var ks := ManagerKeys(records);
    SortedRowFromPivot(records, i);
    var k := PointsTableOf(records).value.rows[i].key;
    assert k in ks;
    var a :| 0 <= a < |ks| && ks[a] == k;
  }

  /** No manager has two rows. */
  lemma RowKeysDistinct(records: seq<GameweekRecord>)
    requires PointsTableOf(records).Ok?
    ensures var rows := PointsTableOf(records).value.rows;
      forall i, j :: 0 <= i < j < |rows| ==> rows[i].key != rows[j].key
  {
    var rows := PointsTableOf(records).value.rows;
    var p, cols := PivotOf(Cells(records)), ColumnsOf(Gameweeks(records));
    KeysInPivot(records);
    var unsorted := Rows(p, Keys(records), cols);
    assert rows == SortBy(unsorted, TotalOf);
    assert Distinct(unsorted) by {
      assert Distinct(Keys(records));
      forall i, j | 0 <= i < j < |unsorted| ensures unsorted[i] != unsorted[j] {
        assert unsorted[i].key == Keys(records)[i];
      }
    }
    DistinctPermutation(unsorted, rows);
    forall i, j | 0 <= i < j < |rows|
      ensures rows[i].key != rows[j].key
    {
      SortedRowFromPivot(records, i);
      SortedRowFromPivot(records, j);
    }
  }

  /** A manager has a row exactly when some record is theirs. */
  lemma RowKeyOfManager(records: seq<GameweekRecord>, k: PointsKey)
    requires PointsTableOf(records).Ok?
    ensures k in RowKeys(PointsTableOf(records).value.rows) <==> k in ManagerKeys(records)
  {
    var t := PointsTableOf(records).value;
    var rk, mk := RowKeys(t.rows), ManagerKeys(records);
    if k in rk {
      var i :| 0 <= i < |rk| && rk[i] == k;
      RecordOfRow(records, i);
      var a :| 0 <= a < |records| && KeyOf(records[a]) == t.rows[i].key;
      assert mk[a] == k;
    }
    if k in mk {
      var a :| 0 <= a < |mk| && mk[a] == k;
      RowOfRecord(records, a);
      var i :| 0 <= i < |t.rows| && t.rows[i].key == KeyOf(records[a]);
      assert rk[i] == k;
    }
  }

  /** One row per manager: the row keys are the managers' keys, each once;
      every row has a cell per column; and the rows are ordered by total
      points, highest first. */
  lemma PointsRows(records: seq<GameweekRecord>)
    requires PointsTableOf(records).Ok?
    ensures var t := PointsTableOf(records).value;
      && NonIncreasing(t.rows, TotalOf)
      && (forall i :: 0 <= i < |t.rows| ==> |t.rows[i].cells| == |t.gameweeks|)
      && Distinct(RowKeys(t.rows))
      && (forall k :: k in RowKeys(t.rows) <==> k in ManagerKeys(records))
  {
    var t := PointsTableOf(records).value;
    var rk, mk := RowKeys(t.rows), ManagerKeys(records);
    forall i | 0 <= i < |t.rows|
      ensures |t.rows[i].cells| == |t.gameweeks|
    {
      RecordOfRow(records, i);
    }
    forall k
      ensures k in rk <==> k in mk
    {
      RowKeyOfManager(records, k);
    }
    RowKeysDistinct(records);
  }

  /** The cell in row `i`, column `j` holds the points of a record of that
      row's manager and that column's gameweek. */
  lemma CellFromRecord(records: seq<GameweekRecord>, i: nat, j: nat)
    requires PointsTableOf(records).Ok?
    requires i < |PointsTableOf(records).value.rows| && j < |PointsTableOf(records).value.rows[i].cells|
    ensures var t := PointsTableOf(records).value;
      && j < |t.gameweeks|
      && exists a :: 0 <= a < |records| && KeyOf(records[a]) == t.rows[i].key &&
                     records[a].gameweek == t.gameweeks[j] && records[a].points == t.rows[i].cells[j]
  {
    var t := PointsTableOf(records).value;
    var cells := Cells(records);
    SortedRowFromPivot(records, i);
    var k, p := t.rows[i].key, PivotOf(cells);
    assert t.rows[i].cells[j] == p[k][t.gameweeks[j]];
    PivotOnlyCells(cells, k, t.gameweeks[j]);
    var a :| 0 <= a < |cells| && cells[a].row == k && cells[a].column == t.gameweeks[j] &&
             cells[a].value == p[k][t.gameweeks[j]];
    assert KeyOf(records[a]) == k && records[a].gameweek == t.gameweeks[j];
  }

  /** When no two records share a manager and a gameweek, a record's points
      are found in its manager's row under its gameweek's column. */
  lemma RecordPointsInTable(records: seq<GameweekRecord>, a: nat)
    requires PointsTableOf(records).Ok? && UniqueCells(Cells(records)) && a < |records|
    ensures var t := PointsTableOf(records).value;
      exists i, j :: 0 <= i < |t.rows| && 0 <= j < |t.gameweeks| && j < |t.rows[i].cells| &&
                     t.rows[i].key == KeyOf(records[a]) && t.gameweeks[j] == records[a].gameweek &&
                     t.rows[i].cells[j] == records[a].points
  {
    var t := PointsTableOf(records).value;
    RowOfRecord(records, a);
    var i :| 0 <= i < |t.rows| && t.rows[i].key == KeyOf(records[a]);
    ColumnOfRecord(records, a);
    var j :| 0 <= j < |t.gameweeks| && t.gameweeks[j] == records[a].gameweek;
    SortedRowFromPivot(records, i);
    PivotOfUnique(Cells(records), a);
    assert t.rows[i].cells[j] == records[a].points;
  }

  /** The column headers after renaming: the index columns, then one `GW <n>` per gameweek. */
  function Headers(t: PointsTable): seq<string> {
    ["Team Name", "Manager Name", "Total Points"] + GameweekHeaders(t.gameweeks)
  }

  lemma HeadersDistinct(gameweeks: seq<int>)
    requires StrictlyAscending(gameweeks)
    ensures Distinct(["Team Name", "Manager Name", "Total Points"] + GameweekHeaders(gameweeks))
  {
    var gws := GameweekHeaders(gameweeks);
    GameweekHeadersDistinct(gameweeks);
    var hs := ["Team Name", "Manager Name", "Total Points"] + gws;
    forall i, j | 0 <= i < j < |hs|
      ensures hs[i] != hs[j]
    {
      if j >= 3 {
        assert hs[j] == gws[j - 3];
        if i >= 3 {
          assert hs[i] == gws[i - 3];
        } else {
          assert hs[i][0] != 'G';
        }
      }
    }
  }

  /** The table built has one header per column and no two alike. */
  lemma PointsHeaders(records: seq<GameweekRecord>)
    requires PointsTableOf(records).Ok?
    ensures var t := PointsTableOf(records).value;
      |Headers(t)| == 3 + |t.gameweeks| && Distinct(Headers(t))
  {
    HeadersDistinct(PointsTableOf(records).value.gameweeks);
  }
}
