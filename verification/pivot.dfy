/** `DataFrame.pivot_table` over (row key, gameweek, value) cells: a two-level
    map from row key to gameweek to value. */
module Pivot {

  datatype Cell<K> = Cell(row: K, column: int, value: int)

  /** No later cell has the same row key and column as `cells[i]`. */
  predicate LastOfItsCell<K(==)>(cells: seq<Cell<K>>, i: nat)
    requires i < |cells|
  {
    forall j :: i < j < |cells| ==> cells[j].row != cells[i].row || cells[j].column != cells[i].column
  }

  /** No two cells share a row key and a column. */
  predicate UniqueCells<K(==)>(cells: seq<Cell<K>>) {
    forall i, j :: 0 <= i < j < |cells| ==> cells[i].row != cells[j].row || cells[i].column != cells[j].column
  }

  /** The pivot: a row for every row key, in it a column for every gameweek that
      key has a cell in. Of two cells with the same key and column the later
      one is kept (see `PivotKeepsLast`). */
  function PivotOf<K(==)>(cells: seq<Cell<K>>): (p: map<K, map<int, int>>)
    ensures |p| <= |cells|
    ensures cells != [] ==> |p| > 0
  {
    if cells == [] then map[]
    else
      var front, c := cells[..|cells| - 1], cells[|cells| - 1];
      var p := PivotOf(front);
      var row := if c.row in p then p[c.row] else map[];
      p[c.row := row[c.column := c.value]]
  }

  /** Every cell has its place in the pivot. */
  lemma {:induction false} PivotCovers<K>(cells: seq<Cell<K>>, i: nat)
    requires i < |cells|
    ensures cells[i].row in PivotOf(cells) && cells[i].column in PivotOf(cells)[cells[i].row]
  {
    if i < |cells| - 1 {
      var front := cells[..|cells| - 1];
      PivotCovers(front, i);
      assert front[i] == cells[i];
    }
  }

  /** The pivot holds nothing but the cells: every row key in it is some cell's. */
  lemma {:induction false} PivotOnlyRows<K>(cells: seq<Cell<K>>, k: K)
    requires k in PivotOf(cells)
    ensures exists i :: 0 <= i < |cells| && cells[i].row == k
  {
    var front, c := cells[..|cells| - 1], cells[|cells| - 1];
    if c.row != k {
      PivotOnlyRows(front, k);
      var i :| 0 <= i < |front| && front[i].row == k;
      assert cells[i] == front[i];
    }
  }

  /** Every entry of the pivot is the value of some cell with that row key and column. */
  lemma {:induction false} PivotOnlyCells<K>(cells: seq<Cell<K>>, k: K, g: int)
    requires k in PivotOf(cells) && g in PivotOf(cells)[k]
    ensures exists i :: 0 <= i < |cells| && cells[i].row == k && cells[i].column == g &&
                        cells[i].value == PivotOf(cells)[k][g]
  {
    var front, c := cells[..|cells| - 1], cells[|cells| - 1];
    if !(c.row == k && c.column == g) {
      PivotOnlyCells(front, k, g);
      var i :| 0 <= i < |front| && front[i].row == k && front[i].column == g &&
               front[i].value == PivotOf(front)[k][g];
      assert cells[i] == front[i];
    }
  }

  /** Each (row key, column) of the pivot holds the value of the last cell with
      that key and column. */
  lemma {:induction false} PivotKeepsLast<K>(cells: seq<Cell<K>>, i: nat)
    requires i < |cells| && LastOfItsCell(cells, i)
    ensures cells[i].row in PivotOf(cells) && cells[i].column in PivotOf(cells)[cells[i].row]
    ensures PivotOf(cells)[cells[i].row][cells[i].column] == cells[i].value
  {
    PivotCovers(cells, i);
    if i < |cells| - 1 {
      var front := cells[..|cells| - 1];
      assert front[i] == cells[i];
      assert LastOfItsCell(front, i);
      PivotKeepsLast(front, i);
    }
  }

  /** With unique cells, every cell's value is found in the pivot: this is where
      pandas' mean over a group of one value is that value. */
  lemma PivotOfUnique<K>(cells: seq<Cell<K>>, i: nat)
    requires UniqueCells(cells) && i < |cells|
    ensures cells[i].row in PivotOf(cells) && cells[i].column in PivotOf(cells)[cells[i].row]
    ensures PivotOf(cells)[cells[i].row][cells[i].column] == cells[i].value
  {
    assert LastOfItsCell(cells, i);
    PivotKeepsLast(cells, i);
  }
}
