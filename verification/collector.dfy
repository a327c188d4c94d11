/** `get_team_data` (app.py:24-88): walks the standings in order and, for each
    manager, counts the latest squad's picks, groups the transfer log by
    gameweek and emits one record per gameweek of history. The HTTP requests
    are replaced by the fetched data carried in each `LeagueMember`. */
module Collector {
  import opened Types
  import opened Seqs
  import opened Directory
  import opened League
  import opened Grouping
  import opened Owners

  /** `gw.get('chip', 'None')`: the string "None" when the key is absent, Python's
      `None` when the key holds JSON null, the chip's name otherwise. */
  function ChipPlayed(chip: ChipField): (r: Option<string>)
    ensures r.None? <==> chip.ChipNull?
    ensures chip.NoChipKey? ==> r == Some("None")
    ensures chip.Chip? ==> r == Some(chip.name)
  {
    match chip
    case NoChipKey => Some("None")
    case ChipNull => None
    case Chip(name) => Some(name)
  }

  /** `transfers_by_gw.get(gw_event, [])`. */
  function TransfersIn(groups: map<int, seq<TransferMade>>, event: int): seq<TransferMade> {
    if event in groups then groups[event] else []
  }

  /** The record emitted for one gameweek of one manager's history. */
  function RecordFor(team: Standing, gw: GameweekHistory, groups: map<int, seq<TransferMade>>): (r: GameweekRecord)
    ensures r.numTransfers == |r.transfers|
    ensures gw.event !in groups ==> r.transfers == []
  {
    var transfers := TransfersIn(groups, gw.event);
    GameweekRecord(team.entryName, team.playerName, team.total, gw.event, gw.points,
                   |transfers|, transfers, ChipPlayed(gw.chip))
  }

  /** One record per history entry, in history order. */
  function ManagerRecords(team: Standing, history: seq<GameweekHistory>,
                          groups: map<int, seq<TransferMade>>): seq<GameweekRecord>
  {
    seq(|history|, k requires 0 <= k < |history| => RecordFor(team, history[k], groups))
  }

  /** The history loop of `get_team_data`: appends this manager's records to `teams_data`. */
  method EmitRecords(teamsData: seq<GameweekRecord>, team: Standing, history: seq<GameweekHistory>,
                     groups: map<int, seq<TransferMade>>)
    returns (teamsData': seq<GameweekRecord>)
    ensures teamsData' == teamsData + ManagerRecords(team, history, groups)
  {
    teamsData' := teamsData;
    var k := 0;
    while k < |history|
      invariant 0 <= k <= |history|
      invariant teamsData' == teamsData + ManagerRecords(team, history[..k], groups)
    {
      var gw := history[k];
      var gwEvent := gw.event;
      var gwData := GameweekRecord(team.entryName, team.playerName, team.total, gwEvent, gw.points,
                                   |TransfersIn(groups, gwEvent)|, TransfersIn(groups, gwEvent),
                                   ChipPlayed(gw.chip));
      assert ManagerRecords(team, history[..k + 1], groups) ==
             ManagerRecords(team, history[..k], groups) + [gwData];
      teamsData' := teamsData' + [gwData];
      k := k + 1;
    }
    assert history[..k] == history;
  }

  function LastEvent(history: seq<GameweekHistory>): int
    requires history != []
  {
    history[|history| - 1].event
  }

  /** What one manager adds to the run: the picks counted and the records emitted. */
  datatype Contribution = Contribution(picks: seq<int>, records: seq<GameweekRecord>)

  /** Processing one standings row, in the source's order of failures: no history,
      then no picks for the last history event, then a transfer naming an
      unknown player. Picks are those of the last history event only. */
  function MemberOutcome(dir: PlayerDirectory, m: LeagueMember): (r: Result<Contribution>)
    ensures r.Ok? <==> m.history != [] && LastEvent(m.history) in m.picks && AllResolvable(dir, m.transfers)
    ensures r.Ok? ==> m.history != [] && LastEvent(m.history) in m.picks &&
                      r.value.picks == m.picks[LastEvent(m.history)] && |r.value.records| == |m.history|
    ensures m.history == [] ==> r == Err(EmptyHistory(m.team.entry))
    ensures m.history != [] && LastEvent(m.history) !in m.picks ==>
              r == Err(MissingPicks(m.team.entry, LastEvent(m.history)))
    ensures m.history != [] && LastEvent(m.history) in m.picks && !AllResolvable(dir, m.transfers) ==>
              FirstFailure(dir, m.transfers).Some? && r == Err(FirstFailure(dir, m.transfers).value)
  {
    if m.history == [] then Err(EmptyHistory(m.team.entry))
    else
      var event := LastEvent(m.history);
      if event !in m.picks then Err(MissingPicks(m.team.entry, event))
      else
        match GroupsOf(dir, m.transfers)
        case Err(e) => Err(e)
        case Ok(groups) => Ok(Contribution(m.picks[event], ManagerRecords(m.team, m.history, groups)))
  }

  /** The managers processed in standings order; the first failure aborts the run. */
  function Collected(dir: PlayerDirectory, league: seq<LeagueMember>): Result<Contribution> {
    if league == [] then Ok(Contribution([], []))
    else
      match Collected(dir, league[..|league| - 1])
      case Err(e) => Err(e)
      case Ok(soFar) =>
        match MemberOutcome(dir, league[|league| - 1])
        case Err(e) => Err(e)
        case Ok(c) => Ok(Contribution(soFar.picks + c.picks, soFar.records + c.records))
  }

  /** What `get_team_data` returns: `teams_data` and `player_ownership`. */
  datatype Collection = Collection(records: seq<GameweekRecord>, ownership: Ownership)

  function CollectionOf(dir: PlayerDirectory, league: seq<LeagueMember>): Result<Collection> {
    match Collected(dir, league)
    case Err(e) => Err(e)
    case Ok(c) => Ok(Collection(c.records, TallyOf(c.picks)))
  }

  /** A failure while processing the first `n` managers is the failure of the run. */
  lemma {:induction false} FailureOfPrefix(dir: PlayerDirectory, league: seq<LeagueMember>, n: nat)
    requires n <= |league| && Collected(dir, league[..n]).Err?
    ensures Collected(dir, league) == Collected(dir, league[..n])
    decreases |league| - n
  {
    if n < |league| {
      var front := league[..|league| - 1];
      assert front[..n] == league[..n];
      FailureOfPrefix(dir, front, n);
    } else {
      assert league[..n] == league;
    }
  }

  /** A manager whose processing fails aborts the run with that manager's error. */
  lemma MemberFails(dir: PlayerDirectory, league: seq<LeagueMember>, i: nat, soFar: Contribution)
    requires i < |league| && Collected(dir, league[..i]) == Ok(soFar)
    requires MemberOutcome(dir, league[i]).Err?
    ensures CollectionOf(dir, league) == Err(MemberOutcome(dir, league[i]).error)
  {
    assert league[..i + 1][..i] == league[..i];
    FailureOfPrefix(dir, league, i + 1);
  }

  /** A manager whose processing succeeds adds its picks and records to the run. */
  lemma MemberSucceeds(dir: PlayerDirectory, league: seq<LeagueMember>, i: nat, soFar: Contribution,
                       c: Contribution)
    requires i < |league| && Collected(dir, league[..i]) == Ok(soFar)
    requires MemberOutcome(dir, league[i]) == Ok(c)
    ensures Collected(dir, league[..i + 1]) == Ok(Contribution(soFar.picks + c.picks, soFar.records + c.records))
  {
    assert league[..i + 1][..i] == league[..i];
  }

  /** The manager loop of `get_team_data`. */
  method GetTeamData(dir: PlayerDirectory, league: seq<LeagueMember>) returns (res: Result<Collection>)
    ensures res == CollectionOf(dir, league)
  {
    var teamsData: seq<GameweekRecord> := [];
    var playerOwnership := Ownership([], map[]);
    ghost var allPicks: seq<int> := [];
    assert TallyOf([]) == playerOwnership;
    var i := 0;
    while i < |league|
      invariant 0 <= i <= |league|
      invariant Collected(dir, league[..i]) == Ok(Contribution(allPicks, teamsData))
      invariant playerOwnership == TallyOf(allPicks)
    {
      var team := league[i];
      ghost var soFar := Contribution(allPicks, teamsData);
      if team.history == [] {
        MemberFails(dir, league, i, soFar);
        return Err(EmptyHistory(team.team.entry));
      }
      var event := team.history[|team.history| - 1].event;
      if event !in team.picks {
        MemberFails(dir, league, i, soFar);
        return Err(MissingPicks(team.team.entry, event));
      }
      var picks := team.picks[event];
      playerOwnership := CountPicks(playerOwnership, picks, allPicks);
      allPicks := allPicks + picks;
      var transfersByGw := GroupTransfers(dir, team.transfers);
      if transfersByGw.Err? {
        MemberFails(dir, league, i, soFar);
        return Err(transfersByGw.error);
      }
      teamsData := EmitRecords(teamsData, team.team, team.history, transfersByGw.value);
      MemberSucceeds(dir, league, i, soFar,
                     Contribution(picks, ManagerRecords(team.team, team.history, transfersByGw.value)));
      i := i + 1;
    }
    assert league[..i] == league;
    res := Ok(Collection(teamsData, playerOwnership));
  }

  /** The run succeeds exactly when every manager's processing succeeds. */
  lemma {:induction false} CollectedOkIffMembersOk(dir: PlayerDirectory, league: seq<LeagueMember>)
    ensures Collected(dir, league).Ok? <==>
            forall i :: 0 <= i < |league| ==> MemberOutcome(dir, league[i]).Ok?
  {
    if league != [] {
      var front := league[..|league| - 1];
      CollectedOkIffMembersOk(dir, front);
      assert forall i :: 0 <= i < |front| ==> front[i] == league[i];
    }
  }

  /** A failed run reports the error of the first manager whose processing fails. */
  lemma {:induction false} CollectedError(dir: PlayerDirectory, league: seq<LeagueMember>)
    requires Collected(dir, league).Err?
    ensures exists i :: 0 <= i < |league| && MemberOutcome(dir, league[i]) == Collected(dir, league) &&
                        forall j :: 0 <= j < i ==> MemberOutcome(dir, league[j]).Ok?
  {
    var front, last := league[..|league| - 1], league[|league| - 1];
    assert forall j :: 0 <= j < |front| ==> front[j] == league[j];
    if Collected(dir, front).Err? {
      CollectedError(dir, front);
      var i :| 0 <= i < |front| && MemberOutcome(dir, front[i]) == Collected(dir, front) &&
                forall j :: 0 <= j < i ==> MemberOutcome(dir, front[j]).Ok?;
      assert MemberOutcome(dir, league[i]) == Collected(dir, league);
    } else {
      CollectedOkIffMembersOk(dir, front);
      assert MemberOutcome(dir, league[|league| - 1]) == Collected(dir, league);
    }
  }

  /** A transfer naming a player the directory lacks aborts the whole run: it is
      never skipped. When every earlier manager was processed and this one has
      a history and picks, the run's error is the lookup error of this
      manager's first unresolvable transfer. */
  lemma UnknownPlayerAborts(dir: PlayerDirectory, league: seq<LeagueMember>, i: nat, k: nat)
    requires i < |league| && k < |league[i].transfers|
    requires league[i].transfers[k].elementIn !in dir || league[i].transfers[k].elementOut !in dir
    ensures CollectionOf(dir, league).Err?
    ensures (forall j :: 0 <= j < i ==> MemberOutcome(dir, league[j]).Ok?) &&
            league[i].history != [] && LastEvent(league[i].history) in league[i].picks ==>
              FirstFailure(dir, league[i].transfers).Some? &&
              CollectionOf(dir, league) == Err(FirstFailure(dir, league[i].transfers).value)
  {
    assert !AllResolvable(dir, league[i].transfers) by {
      assert league[i].transfers[k] in league[i].transfers;
    }
    assert MemberOutcome(dir, league[i]).Err?;
    CollectedOkIffMembersOk(dir, league);
    if (forall j :: 0 <= j < i ==> MemberOutcome(dir, league[j]).Ok?) &&
       league[i].history != [] && LastEvent(league[i].history) in league[i].picks {
      var front := league[..i];
      assert forall j :: 0 <= j < |front| ==> front[j] == league[j];
      CollectedOkIffMembersOk(dir, front);
      MemberFails(dir, league, i, Collected(dir, front).value);
    }
  }

  /** Each manager's squad as counted: the picks of the event of the last
      entry of their history. */
  function LatestSquads(league: seq<LeagueMember>): seq<seq<int>>
    requires forall i :: 0 <= i < |league| ==>
               league[i].history != [] && LastEvent(league[i].history) in league[i].picks
  {
    seq(|league|, i requires 0 <= i < |league| &&
                             league[i].history != [] && LastEvent(league[i].history) in league[i].picks
                          => league[i].picks[LastEvent(league[i].history)])
  }

  /** The picks counted are those of each manager's last history event, one
      manager after another in standings order. */
  lemma {:induction false} CountedPicks(dir: PlayerDirectory, league: seq<LeagueMember>)
    requires Collected(dir, league).Ok?
    ensures forall i :: 0 <= i < |league| ==>
              league[i].history != [] && LastEvent(league[i].history) in league[i].picks
    ensures Collected(dir, league).value.picks == Concat(LatestSquads(league))
  {
    CollectedOkIffMembersOk(dir, league);
    if league != [] {
      var front := league[..|league| - 1];
      CountedPicks(dir, front);
      assert LatestSquads(league)[..|league| - 1] == LatestSquads(front);
    }
  }

  /** `player_ownership[id]` is the number of times `id` occurs in the managers'
      latest squads; ids never picked are absent; and when every squad lists a
      player at most once, no count exceeds the number of managers. */
  lemma OwnershipOfLeague(dir: PlayerDirectory, league: seq<LeagueMember>)
    requires CollectionOf(dir, league).Ok?
    ensures forall i :: 0 <= i < |league| ==>
              league[i].history != [] && LastEvent(league[i].history) in league[i].picks
    ensures
      var own := CollectionOf(dir, league).value.ownership;
      var picked := Concat(LatestSquads(league));
      && (forall id :: id in own.count <==> id in picked)
      && (forall id :: id in own.count ==> own.count[id] == multiset(picked)[id])
      && ((forall i :: 0 <= i < |league| ==> Distinct(LatestSquads(league)[i])) ==>
            forall id :: id in own.count ==> own.count[id] <= |league|)
  {
    CountedPicks(dir, league);
    var squads := LatestSquads(league);
    TallyContents(Concat(squads));
    if forall i :: 0 <= i < |league| ==> Distinct(squads[i]) {
      forall id | id in TallyOf(Concat(squads)).count
        ensures TallyOf(Concat(squads)).count[id] <= |league|
      {
        TallyBound(squads, id);
      }
    }
  }

  /** The total number of history entries of the managers. */
  function HistoryLength(league: seq<LeagueMember>): nat {
    if league == [] then 0 else HistoryLength(league[..|league| - 1]) + |league[|league| - 1].history|
  }

  /** `teams_data` holds one record per history entry of every manager. */
  lemma {:induction false} RecordCount(dir: PlayerDirectory, league: seq<LeagueMember>)
    requires Collected(dir, league).Ok?
    ensures |Collected(dir, league).value.records| == HistoryLength(league)
  {
    if league != [] {
      RecordCount(dir, league[..|league| - 1]);
    }
  }

  /** The record of manager `i`'s `k`-th history entry sits at position
      `HistoryLength(league[..i]) + k` (manager-major, then history order); it
      carries the standings fields, that gameweek's points and chip, and exactly
      that manager's transfers of that gameweek in log order. */
  lemma {:induction false} RecordAt(dir: PlayerDirectory, league: seq<LeagueMember>, i: nat, k: nat)
    requires Collected(dir, league).Ok?
    requires i < |league| && k < |league[i].history|
    ensures HistoryLength(league[..i]) + k < |Collected(dir, league).value.records|
    ensures AllResolvable(dir, league[i].transfers)
    ensures
      var r := Collected(dir, league).value.records[HistoryLength(league[..i]) + k];
      var m := league[i];
      var gw := m.history[k];
      && r.teamName == m.team.entryName && r.managerName == m.team.playerName
      && r.totalPoints == m.team.total
      && r.gameweek == gw.event && r.points == gw.points
      && r.transfers == ResolveAll(dir, InGameweek(m.transfers, gw.event))
      && r.numTransfers == |r.transfers|
      && r.chipPlayed == ChipPlayed(gw.chip)
  {
    var front := league[..|league| - 1];
    CollectedOkIffMembersOk(dir, league);
    var m := league[i];
    assert MemberOutcome(dir, m).Ok?;
    RecordCount(dir, front);
    if i == |league| - 1 {
      assert league[..i] == front;
      RecordOfMember(dir, m, k);
    } else {
      assert front[i] == m;
      RecordAt(dir, front, i, k);
      assert front[..i] == league[..i];
    }
  }

  /** The `k`-th record a manager contributes is that of their `k`-th history entry. */
  lemma RecordOfMember(dir: PlayerDirectory, m: LeagueMember, k: nat)
    requires MemberOutcome(dir, m).Ok? && k < |m.history|
    ensures k < |MemberOutcome(dir, m).value.records|
    ensures AllResolvable(dir, m.transfers)
    ensures
      var r := MemberOutcome(dir, m).value.records[k];
      var gw := m.history[k];
      && r.teamName == m.team.entryName && r.managerName == m.team.playerName
      && r.totalPoints == m.team.total
      && r.gameweek == gw.event && r.points == gw.points
      && r.transfers == ResolveAll(dir, InGameweek(m.transfers, gw.event))
      && r.numTransfers == |r.transfers|
      && r.chipPlayed == ChipPlayed(gw.chip)
  {
    var groups := Grouped(dir, m.transfers);
    var e := m.history[k].event;
    if e !in groups {
      InGameweekOutsideEvents(m.transfers, e);
    }
  }

}
