/** `player_ownership` (app.py:46-51): how many managers hold each player in
    their latest squad, counted pick by pick. */
module Owners {
  import opened Seqs

  /** A Python dict from player id to count: its keys in insertion order, and its values. */
  datatype Ownership = Ownership(order: seq<int>, count: map<int, int>)

  /** A dict's key order lists each of its keys exactly once. */
  predicate Valid(own: Ownership) {
    && Distinct(own.order)
    && (forall i :: 0 <= i < |own.order| ==> own.order[i] in own.count)
    && (forall id :: id in own.count ==> id in own.order)
  }

  /** The dict that counting `picks` must leave: a key for every picked id, in
      order of its first pick, valued by the number of times it was picked. Ids
      never picked are absent. */
  function TallyOf(picks: seq<int>): Ownership {
    Ownership(FirstOccurrences(picks), Counts(picks))
  }

  /** The dict is well formed; it has a key exactly for the ids that were picked,
      each valued by its number of picks. */
  lemma TallyContents(picks: seq<int>)
    ensures Valid(TallyOf(picks))
    ensures forall id :: id in TallyOf(picks).count <==> id in picks
    ensures forall id :: id in TallyOf(picks).count ==> TallyOf(picks).count[id] == multiset(picks)[id] >= 1
  {
    var own := TallyOf(picks);
    forall id | id in own.count
      ensures id in own.order
    {
      var k :| 0 <= k < |picks| && picks[k] == id;
    }
  }

  /** Each picked id with the number of times it was picked. */
  function Counts(picks: seq<int>): map<int, int> {
    map id | id in picks :: multiset(picks)[id]
  }

  lemma OrderSnoc(picks: seq<int>, id: int)
    ensures FirstOccurrences(picks + [id]) ==
            if id in picks then FirstOccurrences(picks) else FirstOccurrences(picks) + [id]
  {
    assert (picks + [id])[..|picks|] == picks;
  }

  lemma CountSnoc(picks: seq<int>, id: int)
    ensures
      var count := Counts(picks);
      Counts(picks + [id]) == if id in picks then count[id := count[id] + 1] else count[id := 1]
  {
    var after := picks + [id];
    var count, count' := Counts(picks), Counts(after);
    var expected := if id in picks then count[id := count[id] + 1] else count[id := 1];
    assert multiset(after) == multiset(picks) + multiset{id};
    assert forall x :: x in after <==> x in picks || x == id;
    assert count'.Keys == expected.Keys;
    forall x | x in count'
      ensures count'[x] == expected[x]
    {
    }
    CountsEqual(count', expected);
  }

  lemma CountsEqual(a: map<int, int>, b: map<int, int>)
    requires a.Keys == b.Keys && forall x :: x in a ==> a[x] == b[x]
    ensures a == b
  {
    assert a.Keys == b.Keys;
    assert forall x :: x in a ==> a[x] == b[x];
  }

  /** The dict update of one pick: a known id is incremented, a new one is
      inserted with count 1 at the end of the key order. */
  function Increment(own: Ownership, id: int): Ownership {
    if id in own.count then Ownership(own.order, own.count[id := own.count[id] + 1])
    else Ownership(own.order + [id], own.count[id := 1])
  }

  /** Counting one more pick is one dict update of the counts so far. */
  lemma TallySnoc(picks: seq<int>, id: int)
    ensures TallyOf(picks + [id]) == Increment(TallyOf(picks), id)
  {
    OrderSnoc(picks, id);
    CountSnoc(picks, id);
    assert id in TallyOf(picks).count <==> id in picks;
  }

  /** The dict left by applying `Increment` for each pick in turn, from an empty dict. */
  function Counted(picks: seq<int>): Ownership {
    if picks == [] then Ownership([], map[])
    else Increment(Counted(picks[..|picks| - 1]), picks[|picks| - 1])
  }

  /** Counting pick by pick leaves the dict `TallyOf` describes. */
  lemma {:induction false} CountedIsTally(picks: seq<int>)
    ensures Counted(picks) == TallyOf(picks)
  {
    if picks != [] {
      var front := picks[..|picks| - 1];
      CountedIsTally(front);
      assert picks == front + [picks[|picks| - 1]];
      TallySnoc(front, picks[|picks| - 1]);
    }
  }

  /** One more pick of `picks` counted on top of `before`. */
  lemma CountedStep(before: seq<int>, picks: seq<int>, i: nat)
    requires i < |picks|
    ensures Counted(before + picks[..i + 1]) == Increment(Counted(before + picks[..i]), picks[i])
  {
    AppendPrefix(before, picks, i);
  }

  /** The pick loop of `get_team_data`: adds one manager's picks to the counts of
      all managers processed before (`before` are their picks). */
  method CountPicks(own: Ownership, picks: seq<int>, ghost before: seq<int>)
    returns (own': Ownership)
    requires own == TallyOf(before)
    ensures own' == TallyOf(before + picks)
  {
    CountedIsTally(before);
    own' := own;
    var i := 0;
    assert before + picks[..i] == before;
    while i < |picks|
      invariant 0 <= i <= |picks|
      invariant own' == Counted(before + picks[..i])
    {
      var playerId := picks[i];
      ghost var previous := own';
      if playerId in own'.count {
        own' := own'.(count := own'.count[playerId := own'.count[playerId] + 1]);
      } else {
        own' := Ownership(own'.order + [playerId], own'.count[playerId := 1]);
      }
      assert own' == Increment(previous, playerId);
      CountedStep(before, picks, i);
      i := i + 1;
    }
    assert picks[..i] == picks;
    CountedIsTally(before + picks);
  }

  /** When every manager's squad lists each player once, no player is counted
      more often than there are managers. */
  lemma {:induction false} TallyBound(squads: seq<seq<int>>, id: int)
    requires forall k :: 0 <= k < |squads| ==> Distinct(squads[k])
    requires id in TallyOf(Concat(squads)).count
    ensures TallyOf(Concat(squads)).count[id] <= |squads|
  {
    CountBound(squads, id);
  }

  lemma {:induction false} CountBound(squads: seq<seq<int>>, id: int)
    requires forall k :: 0 <= k < |squads| ==> Distinct(squads[k])
    ensures multiset(Concat(squads))[id] <= |squads|
  {
    if squads != [] {
      var front := squads[..|squads| - 1];
      CountBound(front, id);
      DistinctOccursOnce(squads[|squads| - 1], id);
      assert multiset(Concat(squads)) == multiset(Concat(front)) + multiset(squads[|squads| - 1]);
    }
  }
}
