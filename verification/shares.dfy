/** The most-owned players table (app.py:120-134): one row per owned player
    with the player's name, the fraction `count / total_teams` and the
    percentage, sorted by percentage descending. */
module Shares {
  import opened Types
  import opened Seqs
  import opened Ordering
  import opened Text
  import opened Directory
  import opened League
  import opened Owners

  /** A row before formatting: the fraction and the percentage are both
      computed from `count` and `totalTeams` (see `Fraction`, `Percentage`). */
  datatype ShareRow = ShareRow(playerName: string, count: int, totalTeams: int)

  function CountOf(row: ShareRow): int {
    row.count
  }

  /** `f"{count} / {total_teams}"`. */
  function Fraction(row: ShareRow): string {
    FractionText(row.count, row.totalTeams)
  }

  /** `(count / total_teams) * 100`, exact. */
  function Percentage(row: ShareRow): real
    requires row.totalTeams > 0
  {
    (row.count as real / row.totalTeams as real) * 100.0
  }

  /** The team names among the records: `df['team_name'].unique()`. */
  function TeamNames(records: seq<GameweekRecord>): set<string> {
    set r | r in records :: r.teamName
  }

  /** `total_teams` as the source computes it: distinct team names, not managers. */
  function TotalTeams(records: seq<GameweekRecord>): nat {
    |TeamNames(records)|
  }

  /** The position of the first id the directory does not hold, or `|ids|`. */
  function FirstUnknown(dir: PlayerDirectory, ids: seq<int>): (u: nat)
    ensures u <= |ids|
    ensures forall j :: 0 <= j < u ==> ids[j] in dir
    ensures u < |ids| ==> ids[u] !in dir
  {
    if ids == [] || ids[0] !in dir then 0 else 1 + FirstUnknown(dir, ids[1..])
  }

  function RowFor(dir: PlayerDirectory, own: Ownership, totalTeams: nat, id: int): ShareRow
    requires id in dir && id in own.count
  {
    ShareRow(dir[id].name, own.count[id], totalTeams)
  }

  /** `ownership_data`: one row per key of `player_ownership`, in key order. */
  function ShareRows(dir: PlayerDirectory, own: Ownership, totalTeams: nat): seq<ShareRow>
    requires Valid(own)
    requires forall i :: 0 <= i < |own.order| ==> own.order[i] in dir
  {
    seq(|own.order|, i requires 0 <= i < |own.order| && own.order[i] in dir && own.order[i] in own.count =>
      RowFor(dir, own, totalTeams, own.order[i]))
  }

  /** The table over the denominator `totalTeams`, or the error building it
      raises: no records leave no `team_name` column, a player missing from the
      catalog is a KeyError, and no pick at all leaves no column to sort by.
      Sorting by count is sorting by percentage, as the denominator is shared
      (`SharesByPercentage`). */
  function SharesTable(dir: PlayerDirectory, own: Ownership, totalTeams: nat): (r: Result<seq<ShareRow>>)
    requires Valid(own)
    ensures r.Ok? ==> |r.value| == |own.order| && NonIncreasing(r.value, CountOf)
    ensures r.Err? ==> r.error == NoRecords || r.error == NoPicks ||
                       (r.error.UnknownPlayer? && r.error.id in own.count && r.error.id !in dir)
  {
    if totalTeams == 0 then Err(NoRecords)
    else
      var u := FirstUnknown(dir, own.order);
      if u < |own.order| then
        assert own.order[u] in own.count;
        Err(UnknownPlayer(own.order[u]))
      else if own.order == [] then Err(NoPicks)
      else
        var rows := ShareRows(dir, own, totalTeams);
        var sorted := SortBy(rows, CountOf);
        assert |sorted| == |multiset(sorted)| == |multiset(rows)| == |rows|;
        Ok(sorted)
  }

  /** Two denominators that are both zero or both positive give the same
      error, or both a table. */
  lemma SharesTableDenominators(dir: PlayerDirectory, own: Ownership, n1: nat, n2: nat)
    requires Valid(own) && (n1 == 0 <==> n2 == 0)
    ensures SharesTable(dir, own, n1).Ok? <==> SharesTable(dir, own, n2).Ok?
    ensures SharesTable(dir, own, n1).Err? ==> SharesTable(dir, own, n1) == SharesTable(dir, own, n2)
  {
  }

  /** Some record, so some team name. */
  lemma TeamsOfRecords(records: seq<GameweekRecord>)
    ensures TotalTeams(records) == 0 <==> records == []
  {
    if records != [] {
      assert records[0].teamName in TeamNames(records);
    }
  }

  /** The table is built exactly when there are teams, some pick and every
      owned player is in the catalog; otherwise the error names the first
      failure, and the unknown player reported is the first one in key order. */
  lemma SharesTableOk(dir: PlayerDirectory, own: Ownership, totalTeams: nat)
    requires Valid(own)
    ensures SharesTable(dir, own, totalTeams).Ok? <==>
              totalTeams > 0 && own.order != [] && forall id :: id in own.count ==> id in dir
    ensures totalTeams == 0 ==> SharesTable(dir, own, totalTeams) == Err(NoRecords)
    ensures totalTeams > 0 && (exists id :: id in own.count && id !in dir) ==>
              exists u :: 0 <= u < |own.order| &&
                SharesTable(dir, own, totalTeams) == Err(UnknownPlayer(own.order[u])) &&
                own.order[u] in own.count && own.order[u] !in dir &&
                forall j :: 0 <= j < u ==> own.order[j] in dir
    ensures totalTeams > 0 && own.order == [] ==> SharesTable(dir, own, totalTeams) == Err(NoPicks)
  {
    var u := FirstUnknown(dir, own.order);
    if totalTeams > 0 && exists id :: id in own.count && id !in dir {
      var id :| id in own.count && id !in dir;
      var k :| 0 <= k < |own.order| && own.order[k] == id;
      assert u <= k;
    }
  }

  /** A built table is the rows of `player_ownership`, sorted. */
  lemma SortedShares(dir: PlayerDirectory, own: Ownership, totalTeams: nat)
    requires Valid(own) && SharesTable(dir, own, totalTeams).Ok?
    ensures totalTeams > 0 && forall i :: 0 <= i < |own.order| ==> own.order[i] in dir
    ensures SharesTable(dir, own, totalTeams).value == SortBy(ShareRows(dir, own, totalTeams), CountOf)
  {
  }

  /** Every row is the row of an owned player. */
  lemma OwnedOfRow(dir: PlayerDirectory, own: Ownership, totalTeams: nat, r: ShareRow)
    requires Valid(own) && SharesTable(dir, own, totalTeams).Ok?
    requires r in SharesTable(dir, own, totalTeams).value
    ensures exists id :: id in own.count && id in dir && r == RowFor(dir, own, totalTeams, id)
  {
    SortedShares(dir, own, totalTeams);
    var unsorted := ShareRows(dir, own, totalTeams);
    assert r in multiset(unsorted);
    var i :| 0 <= i < |unsorted| && unsorted[i] == r;
    assert own.order[i] in own.count && own.order[i] in dir;
  }

  /** Every owned player has its row. */
  lemma RowOfOwned(dir: PlayerDirectory, own: Ownership, totalTeams: nat, id: int)
    requires Valid(own) && SharesTable(dir, own, totalTeams).Ok?
    requires id in own.count && id in dir
    ensures RowFor(dir, own, totalTeams, id) in SharesTable(dir, own, totalTeams).value
  {
    SortedShares(dir, own, totalTeams);
    var unsorted := ShareRows(dir, own, totalTeams);
    var i :| 0 <= i < |own.order| && own.order[i] == id;
    assert unsorted[i] == RowFor(dir, own, totalTeams, id);
    assert unsorted[i] in multiset(SharesTable(dir, own, totalTeams).value);
  }

  /** One row per owned player, naming the player and carrying its count and
      the shared denominator; rows are ordered by count, highest first. */
  lemma SharesRows(dir: PlayerDirectory, own: Ownership, totalTeams: nat)
    requires Valid(own) && SharesTable(dir, own, totalTeams).Ok?
    ensures var rows := SharesTable(dir, own, totalTeams).value;
      && |rows| == |own.order|
      && NonIncreasing(rows, CountOf)
      && (forall i :: 0 <= i < |rows| ==> rows[i].totalTeams == totalTeams > 0)
      && forall r :: r in rows <==>
           exists id :: id in own.count && id in dir && r == RowFor(dir, own, totalTeams, id)
  {
    var rows := SharesTable(dir, own, totalTeams).value;
    SortedShares(dir, own, totalTeams);
    var unsorted := ShareRows(dir, own, totalTeams);
    assert |rows| == |unsorted| by {
      assert |multiset(rows)| == |multiset(unsorted)|;
    }
    forall r
      ensures r in rows <==> exists id :: id in own.count && id in dir && r == RowFor(dir, own, totalTeams, id)
    {
      if r in rows {
        OwnedOfRow(dir, own, totalTeams, r);
      }
      if exists id :: id in own.count && id in dir && r == RowFor(dir, own, totalTeams, id) {
        var id :| id in own.count && id in dir && r == RowFor(dir, own, totalTeams, id);
        RowOfOwned(dir, own, totalTeams, id);
      }
    }
    forall i | 0 <= i < |rows|
      ensures rows[i].totalTeams == totalTeams
    {
      assert rows[i] in rows;
    }
  }

  /** Over a shared positive denominator, a larger count is a larger share. */
  lemma ShareOrder(a: ShareRow, b: ShareRow)
    requires a.totalTeams == b.totalTeams > 0 && a.count >= b.count
    ensures Percentage(a) >= Percentage(b)
  {
    var t := a.totalTeams as real;
    assert a.count as real / t >= b.count as real / t;
  }

  /** The rows, sorted by count, are sorted by percentage as the source sorts them. */
  lemma SharesByPercentage(dir: PlayerDirectory, own: Ownership, totalTeams: nat)
    requires Valid(own) && SharesTable(dir, own, totalTeams).Ok?
    ensures var rows := SharesTable(dir, own, totalTeams).value;
      forall i, j :: 0 <= i < j < |rows| ==>
        rows[i].totalTeams > 0 && rows[j].totalTeams > 0 && Percentage(rows[i]) >= Percentage(rows[j])
  {
    var rows := SharesTable(dir, own, totalTeams).value;
    SharesRows(dir, own, totalTeams);
    forall i, j | 0 <= i < j < |rows|
      ensures rows[i].totalTeams > 0 && rows[j].totalTeams > 0 && Percentage(rows[i]) >= Percentage(rows[j])
    {
      ShareOrder(rows[i], rows[j]);
    }
  }

  lemma ShareAtMostWhole(row: ShareRow)
    requires 0 < row.count <= row.totalTeams
    ensures Percentage(row) <= 100.0
  {
    var t := row.totalTeams as real;
    assert row.count as real / t <= 1.0;
  }

  /** When no player is owned more often than the denominator, no share
      exceeds 100%. */
  lemma SharesAtMostWhole(dir: PlayerDirectory, own: Ownership, totalTeams: nat)
    requires Valid(own) && SharesTable(dir, own, totalTeams).Ok?
    requires forall id :: id in own.count ==> 0 < own.count[id] <= totalTeams
    ensures var rows := SharesTable(dir, own, totalTeams).value;
      forall i :: 0 <= i < |rows| ==>
        0 < rows[i].count <= rows[i].totalTeams == totalTeams && Percentage(rows[i]) <= 100.0
  {
    var rows := SharesTable(dir, own, totalTeams).value;
    SharesRows(dir, own, totalTeams);
    forall i | 0 <= i < |rows|
      ensures 0 < rows[i].count <= rows[i].totalTeams == totalTeams && Percentage(rows[i]) <= 100.0
    {
      assert rows[i] in rows;
      var id :| id in own.count && id in dir && rows[i] == RowFor(dir, own, totalTeams, id);
      ShareAtMostWhole(rows[i]);
    }
  }
}
