/** The gameweek columns of a pivot table: pandas lays out the distinct values
    of the `gameweek` column in ascending order. */
module Columns {

  predicate StrictlyAscending(s: seq<int>) {
    forall i, j :: 0 <= i < j < |s| ==> s[i] < s[j]
  }

  /** Adds `g` to the ascending, repeat-free `s` at its place, unless it is already there. */
  function InsertAscending(g: int, s: seq<int>): (r: seq<int>)
    requires StrictlyAscending(s)
    ensures StrictlyAscending(r)
    ensures forall x :: x in r <==> x in s || x == g
  {
    if s == [] then [g]
    else if g < s[0] then [g] + s
    else if g == s[0] then s
    else
      var rest := InsertAscending(g, s[1..]);
      assert forall k :: 0 <= k < |rest| ==> rest[k] > s[0] by {
        forall k | 0 <= k < |rest| ensures rest[k] > s[0] { assert rest[k] in rest; }
      }
      [s[0]] + rest
  }

  /** The column labels of a pivot on `gameweeks`: every value once, ascending. */
  function ColumnsOf(gameweeks: seq<int>): (cols: seq<int>)
    ensures StrictlyAscending(cols)
    ensures forall g :: g in cols <==> g in gameweeks
  {
    if gameweeks == [] then []
    else
      var front := gameweeks[..|gameweeks| - 1];
      assert gameweeks == front + [gameweeks[|gameweeks| - 1]];
      InsertAscending(gameweeks[|gameweeks| - 1], ColumnsOf(front))
  }
}
