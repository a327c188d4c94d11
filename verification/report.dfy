/** The whole dashboard (app.py:18, 90-134): the player directory, the run of
    `get_team_data` over the league, and the three tables built from its
    result. The tabs that display them are not modelled. */
module Dashboard {
  import opened Types
  import opened Seqs
  import opened Text
  import opened Directory
  import opened League
  import opened Grouping
  import opened Owners
  import opened Collector
  import Points
  import Transfers
  import opened Shares

  datatype Report = Report(points: Points.PointsTable, transfers: Transfers.TransfersTable,
                           shares: seq<ShareRow>)

  /** The three tables in the source's order of building, over the ownership
      denominator `totalTeams`; the first table that fails fails the report. */
  function Assemble(dir: PlayerDirectory, c: Collection, totalTeams: nat): Result<Report>
    requires Valid(c.ownership)
  {
    match Points.PointsTableOf(c.records)
    case Err(e) => Err(e)
    case Ok(points) =>
      match Transfers.TransfersTableOf(c.records)
      case Err(e) => Err(e)
      case Ok(transfers) =>
        match SharesTable(dir, c.ownership, totalTeams)
        case Err(e) => Err(e)
        case Ok(shares) => Ok(Report(points, transfers, shares))
  }

  /** The denominator only decides whether the shares table fails when it is
      zero, so two denominators zero together give reports that fail alike
      and hold the same points and transfers tables. */
  lemma AssembleDenominators(dir: PlayerDirectory, c: Collection, n1: nat, n2: nat)
    requires Valid(c.ownership) && (n1 == 0 <==> n2 == 0)
    ensures Assemble(dir, c, n1).Ok? <==> Assemble(dir, c, n2).Ok?
    ensures Assemble(dir, c, n1).Err? ==> Assemble(dir, c, n1) == Assemble(dir, c, n2)
    ensures Assemble(dir, c, n1).Ok? ==>
              Assemble(dir, c, n1).value.points == Assemble(dir, c, n2).value.points &&
              Assemble(dir, c, n1).value.transfers == Assemble(dir, c, n2).value.transfers
  {
    SharesTableDenominators(dir, c.ownership, n1, n2);
  }

  lemma CollectionValid(dir: PlayerDirectory, league: seq<LeagueMember>)
    requires CollectionOf(dir, league).Ok?
    ensures Valid(CollectionOf(dir, league).value.ownership)
  {
    TallyContents(Collected(dir, league).value.picks);
  }

  /** The corrected report: ownership shares over the number of managers in
      the league, which keeps every share within 100% (see `SharesOfLeague`). */
  function ReportOf(dir: PlayerDirectory, league: seq<LeagueMember>): Result<Report> {
    match CollectionOf(dir, league)
    case Err(e) => Err(e)
    case Ok(c) =>
      CollectionValid(dir, league);
      Assemble(dir, c, |league|)
  }

  /** The report as the source builds it, with ownership shares over the
      number of distinct team names (see `SharedTeamNameOverCounts`). It fails
      exactly when the corrected report fails, with the same error, and the
      two hold the same points and transfers tables. */
  function ReportAsWritten(dir: PlayerDirectory, league: seq<LeagueMember>): (r: Result<Report>)
    ensures r.Ok? <==> ReportOf(dir, league).Ok?
    ensures r.Err? ==> r == ReportOf(dir, league)
    ensures r.Ok? ==> r.value.points == ReportOf(dir, league).value.points &&
                      r.value.transfers == ReportOf(dir, league).value.transfers
  {
    match CollectionOf(dir, league)
    case Err(e) => Err(e)
    case Ok(c) =>
      CollectionValid(dir, league);
      LeagueRecords(dir, league);
      TeamsOfRecords(c.records);
      AssembleDenominators(dir, c, TotalTeams(c.records), |league|);
      Assemble(dir, c, TotalTeams(c.records))
  }

  /** Fetches the catalog into the directory, runs `get_team_data` and builds
      the tables, dividing ownership by the number of distinct team names. */
  method BuildReport(catalog: seq<CatalogElement>, league: seq<LeagueMember>) returns (res: Result<Report>)
    ensures res == ReportAsWritten(BuildDirectory(catalog), league)
  {
    var dir := BuildDirectory(catalog);
    var collected := GetTeamData(dir, league);
    if collected.Err? {
      return Err(collected.error);
    }
    CollectionValid(dir, league);
    res := Assemble(dir, collected.value, TotalTeams(collected.value.records));
  }

  /** The team names of the managers in the league. */
  function EntryNames(league: seq<LeagueMember>): set<string> {
    set m | m in league :: m.team.entryName
  }

  lemma TeamNamesConcat(a: seq<GameweekRecord>, b: seq<GameweekRecord>)
    ensures TeamNames(a + b) == TeamNames(a) + TeamNames(b)
  {
    forall n | n in TeamNames(a + b) ensures n in TeamNames(a) + TeamNames(b) {
      var r :| r in a + b && r.teamName == n;
    }
    forall n | n in TeamNames(a) + TeamNames(b) ensures n in TeamNames(a + b) {
      if n in TeamNames(a) {
        var r :| r in a && r.teamName == n;
        assert r in a + b;
      } else {
        var r :| r in b && r.teamName == n;
        assert r in a + b;
      }
    }
  }

  /** A manager processed without failure contributes records under their team name. */
  lemma MemberTeamNames(dir: PlayerDirectory, m: LeagueMember)
    requires MemberOutcome(dir, m).Ok?
    ensures TeamNames(MemberOutcome(dir, m).value.records) == {m.team.entryName}
  {
    var rs := MemberOutcome(dir, m).value.records;
    assert rs[0] in rs;
    forall n | n in TeamNames(rs) ensures n == m.team.entryName {
      var r :| r in rs && r.teamName == n;
    }
  }

  lemma EntryNamesSnoc(front: seq<LeagueMember>, m: LeagueMember)
    ensures EntryNames(front + [m]) == EntryNames(front) + {m.team.entryName}
  {
    assert m in front + [m];
    forall n | n in EntryNames(front + [m]) ensures n in EntryNames(front) + {m.team.entryName} {
      var x :| x in front + [m] && x.team.entryName == n;
    }
    forall n | n in EntryNames(front) ensures n in EntryNames(front + [m]) {
      var x :| x in front && x.team.entryName == n;
      assert x in front + [m];
    }
  }

  /** A successful run is the run over all managers but the last, followed by
      the last manager's records. */
  lemma CollectedLast(dir: PlayerDirectory, league: seq<LeagueMember>)
    requires league != [] && Collected(dir, league).Ok?
    ensures var front, m := league[..|league| - 1], league[|league| - 1];
      && Collected(dir, front).Ok? && MemberOutcome(dir, m).Ok?
      && Collected(dir, league).value.records ==
           Collected(dir, front).value.records + MemberOutcome(dir, m).value.records
  {
  }

  /** Every manager of a successful run contributes records, all carrying the
      manager's team name, so the records' team names are the league's. */
  lemma {:induction false} TeamNamesOfLeague(dir: PlayerDirectory, league: seq<LeagueMember>)
    requires Collected(dir, league).Ok?
    ensures TeamNames(Collected(dir, league).value.records) == EntryNames(league)
  {
    if league != [] {
      var front, m := league[..|league| - 1], league[|league| - 1];
      CollectedLast(dir, league);
      TeamNamesOfLeague(dir, front);
      TeamNamesConcat(Collected(dir, front).value.records, MemberOutcome(dir, m).value.records);
      MemberTeamNames(dir, m);
      assert league == front + [m];
      EntryNamesSnoc(front, m);
    }
  }

  /** The last manager's team name is not among the others' when no two managers share one. */
  lemma LastNameIsNew(league: seq<LeagueMember>)
    requires league != []
    requires forall i, j :: 0 <= i < j < |league| ==> league[i].team.entryName != league[j].team.entryName
    ensures league[|league| - 1].team.entryName !in EntryNames(league[..|league| - 1])
  {
    var front, m := league[..|league| - 1], league[|league| - 1];
    forall x | x in front
      ensures x.team.entryName != m.team.entryName
    {
      var k :| 0 <= k < |front| && front[k] == x;
      assert league[k] == x;
    }
  }

  /** Managers with pairwise different team names have as many team names as managers. */
  lemma {:induction false} DistinctEntryNames(league: seq<LeagueMember>)
    requires forall i, j :: 0 <= i < j < |league| ==> league[i].team.entryName != league[j].team.entryName
    ensures |EntryNames(league)| == |league|
  {
    if league != [] {
      var front, m := league[..|league| - 1], league[|league| - 1];
      assert forall i, j :: 0 <= i < j < |front| ==> front[i].team.entryName != front[j].team.entryName by {
        assert forall i :: 0 <= i < |front| ==> front[i] == league[i];
      }
      DistinctEntryNames(front);
      assert league == front + [m];
      EntryNamesSnoc(front, m);
      LastNameIsNew(league);
    }
  }

  /** Where no two managers share a team name, the source's denominator is the
      number of managers, so the two reports agree. */
  lemma DenominatorsAgree(dir: PlayerDirectory, league: seq<LeagueMember>)
    requires CollectionOf(dir, league).Ok?
    requires forall i, j :: 0 <= i < j < |league| ==> league[i].team.entryName != league[j].team.entryName
    ensures TotalTeams(CollectionOf(dir, league).value.records) == |league|
    ensures ReportAsWritten(dir, league) == ReportOf(dir, league)
  {
    TeamNamesOfLeague(dir, league);
    DistinctEntryNames(league);
  }

  /** The report fails with the run's error if the run fails; otherwise with
      no records, then a missing points cell, then an owned player the catalog
      lacks, then no pick at all; and it is built exactly when none of these
      happens. The run has records, and so team names, exactly when the
      league has managers. */
  lemma ReportOk(dir: PlayerDirectory, league: seq<LeagueMember>)
    ensures CollectionOf(dir, league).Err? ==> ReportAsWritten(dir, league) == Err(CollectionOf(dir, league).error)
    ensures CollectionOf(dir, league).Ok? ==>
      var c := CollectionOf(dir, league).value;
      && (c.records == [] <==> league == [])
      && (TotalTeams(c.records) == 0 <==> league == [])
      && (ReportAsWritten(dir, league).Ok? <==>
            && c.records != []
            && Points.EveryManagerEveryGameweek(c.records)
            && (forall id :: id in c.ownership.count ==> id in dir)
            && c.ownership.order != [])
  {
    if CollectionOf(dir, league).Ok? {
      var c := CollectionOf(dir, league).value;
      CollectionValid(dir, league);
      RecordCount(dir, league);
      LeagueRecords(dir, league);
      TeamsOfRecords(c.records);
      Points.PointsTableOk(c.records);
      Transfers.TransfersTableOk(c.records);
      SharesTableOk(dir, c.ownership, TotalTeams(c.records));
    }
  }

  /** In a successful run every manager is processed and contributes one
      record per history entry, at least one; so there are at least as many
      records as managers. */
  lemma {:induction false} LeagueRecords(dir: PlayerDirectory, league: seq<LeagueMember>)
    requires Collected(dir, league).Ok?
    ensures forall i :: 0 <= i < |league| ==>
              MemberOutcome(dir, league[i]).Ok? &&
              |MemberOutcome(dir, league[i]).value.records| == |league[i].history| > 0
    ensures |Collected(dir, league).value.records| >= |league|
  {
    CollectedOkIffMembersOk(dir, league);
    if league != [] {
      var front := league[..|league| - 1];
      CollectedOkIffMembersOk(dir, front);
      LeagueRecords(dir, front);
    }
  }

  /** The shares of a built report are the shares table over the number of
      distinct team names in the records. */
  lemma ReportShares(dir: PlayerDirectory, league: seq<LeagueMember>)
    requires ReportAsWritten(dir, league).Ok?
    ensures CollectionOf(dir, league).Ok? && Valid(CollectionOf(dir, league).value.ownership)
    ensures var c := CollectionOf(dir, league).value;
      && SharesTable(dir, c.ownership, TotalTeams(c.records)).Ok?
      && ReportAsWritten(dir, league).value.shares == SharesTable(dir, c.ownership, TotalTeams(c.records)).value
  {
    CollectionValid(dir, league);
  }

  /** The shares of a built corrected report are the shares table over the
      number of managers. */
  lemma CorrectedShares(dir: PlayerDirectory, league: seq<LeagueMember>)
    requires ReportOf(dir, league).Ok?
    ensures CollectionOf(dir, league).Ok? && Valid(CollectionOf(dir, league).value.ownership)
    ensures SharesTable(dir, CollectionOf(dir, league).value.ownership, |league|).Ok?
    ensures ReportOf(dir, league).value.shares ==
              SharesTable(dir, CollectionOf(dir, league).value.ownership, |league|).value
  {
    CollectionValid(dir, league);
  }

  /** No manager's latest squad lists a player twice. */
  predicate SquadsDistinct(league: seq<LeagueMember>) {
    forall i :: 0 <= i < |league| && league[i].history != [] && LastEvent(league[i].history) in league[i].picks ==>
      Distinct(league[i].picks[LastEvent(league[i].history)])
  }

  /** Every owned player is owned by at least one and at most all managers,
      when no squad lists a player twice. */
  lemma OwnedAtMostLeague(dir: PlayerDirectory, league: seq<LeagueMember>)
    requires CollectionOf(dir, league).Ok?
    requires SquadsDistinct(league)
    ensures var own := CollectionOf(dir, league).value.ownership;
      forall id :: id in own.count ==> 0 < own.count[id] <= |league|
  {
    OwnershipOfLeague(dir, league);
    assert forall i :: 0 <= i < |league| ==> Distinct(LatestSquads(league)[i]);
    TallyContents(Collected(dir, league).value.picks);
  }

  /** When no manager lists a player twice in a squad, no player is owned by
      more managers than the league has: every share is at most 100%. */
  lemma SharesOfLeague(dir: PlayerDirectory, league: seq<LeagueMember>)
    requires ReportOf(dir, league).Ok?
    requires SquadsDistinct(league)
    ensures var shares := ReportOf(dir, league).value.shares;
      forall i :: 0 <= i < |shares| ==>
        0 < shares[i].count <= shares[i].totalTeams == |league| && Percentage(shares[i]) <= 100.0
  {
    CorrectedShares(dir, league);
    OwnedAtMostLeague(dir, league);
    SharesAtMostWhole(dir, CollectionOf(dir, league).value.ownership, |league|);
  }

  /** Two managers whose teams are both named "Gegenpress", each with one
      gameweek of history, no transfers and player 7 in their squad. */
  function SameNameLeague(): seq<LeagueMember> {
    [LeagueMember(Standing(1, "Gegenpress", "Ann", 60), [GameweekHistory(1, 60, NoChipKey)], map[1 := [7]], []),
     LeagueMember(Standing(2, "Gegenpress", "Bob", 55), [GameweekHistory(1, 55, NoChipKey)], map[1 := [7]], [])]
  }

  function SameNameDirectory(): PlayerDirectory {
    map[7 := PlayerInfo("Salah", 130)]
  }

  function SameNameRecords(): seq<GameweekRecord> {
    [GameweekRecord("Gegenpress", "Ann", 60, 1, 60, 0, [], Some("None")),
     GameweekRecord("Gegenpress", "Bob", 55, 1, 55, 0, [], Some("None"))]
  }

  lemma SameNameCollection()
    ensures CollectionOf(SameNameDirectory(), SameNameLeague()) ==
              Ok(Collection(SameNameRecords(), TallyOf([7, 7])))
  {
    var dir, league := SameNameDirectory(), SameNameLeague();
    var ann, bob := league[0], league[1];
    var recAnn, recBob := SameNameRecords()[0], SameNameRecords()[1];
    assert Grouped(dir, []) == map[];
    assert GroupsOf(dir, []) == Ok(map[]);
    assert ManagerRecords(ann.team, ann.history, map[]) == [recAnn];
    assert ManagerRecords(bob.team, bob.history, map[]) == [recBob];
    assert MemberOutcome(dir, ann) == Ok(Contribution([7], [recAnn]));
    assert MemberOutcome(dir, bob) == Ok(Contribution([7], [recBob]));
    assert Collected(dir, []) == Ok(Contribution([], []));
    assert [ann][..0] == [] && [] + [7] == [7] && [] + [recAnn] == [recAnn];
    assert Collected(dir, [ann]) == Ok(Contribution([7], [recAnn]));
    assert league[..1] == [ann];
    assert [7] + [7] == [7, 7] && [recAnn] + [recBob] == SameNameRecords();
    assert Collected(dir, league) == Ok(Contribution([7, 7], SameNameRecords()));
  }

  lemma SameNameTally()
    ensures TallyOf([7, 7]) == Ownership([7], map[7 := 2])
  {
    CountedIsTally([7, 7]);
    assert [7][..0] == [];
    var once := Ownership([7], map[7 := 1]);
    assert Counted([7]) == once;
    assert [7, 7][..1] == [7];
    assert Counted([7, 7]) == Increment(once, 7);
    assert once.count[7 := once.count[7] + 1] == map[7 := 2];
  }

  lemma SameNameTeams()
    ensures TotalTeams(SameNameRecords()) == 1
  {
    var rs := SameNameRecords();
    assert rs[0] in rs;
    forall n | n in TeamNames(rs) ensures n == "Gegenpress" {
      var r :| r in rs && r.teamName == n;
    }
    assert TeamNames(rs) == {"Gegenpress"};
  }

  lemma SameNameComplete()
    ensures Points.EveryManagerEveryGameweek(SameNameRecords())
  {
    var rs := SameNameRecords();
    forall a, b | 0 <= a < |rs| && 0 <= b < |rs|
      ensures Points.HasRecord(rs, Points.KeyOf(rs[a]), rs[b].gameweek)
    {
      assert rs[a].gameweek == rs[b].gameweek;
    }
  }

  lemma SameNameTables()
    ensures Points.PointsTableOf(SameNameRecords()).Ok?
    ensures Transfers.TransfersTableOf(SameNameRecords()).Ok?
    ensures TotalTeams(SameNameRecords()) == 1
  {
    SameNameTeams();
    SameNameComplete();
    Points.PointsTableOk(SameNameRecords());
    Transfers.TransfersTableOk(SameNameRecords());
  }

  lemma SameNameShares()
    ensures SharesTable(SameNameDirectory(), Ownership([7], map[7 := 2]), 1) == Ok([ShareRow("Salah", 2, 1)])
    ensures SharesTable(SameNameDirectory(), Ownership([7], map[7 := 2]), 2) == Ok([ShareRow("Salah", 2, 2)])
  {
    var own := Ownership([7], map[7 := 2]);
    assert FirstUnknown(SameNameDirectory(), [7]) == 1;
    assert ShareRows(SameNameDirectory(), own, 1) == [ShareRow("Salah", 2, 1)];
    assert ShareRows(SameNameDirectory(), own, 2) == [ShareRow("Salah", 2, 2)];
  }

  /** When the run and the three tables succeed, so does the report, and its
      shares are the shares table's; in both the source's and the corrected
      denominator. */
  lemma ReportFromTables(dir: PlayerDirectory, league: seq<LeagueMember>)
    requires CollectionOf(dir, league).Ok? && Valid(CollectionOf(dir, league).value.ownership)
    requires Points.PointsTableOf(CollectionOf(dir, league).value.records).Ok?
    requires Transfers.TransfersTableOf(CollectionOf(dir, league).value.records).Ok?
    ensures var c := CollectionOf(dir, league).value;
      && (SharesTable(dir, c.ownership, |league|).Ok? ==>
            ReportOf(dir, league) == Ok(Report(Points.PointsTableOf(c.records).value,
                                               Transfers.TransfersTableOf(c.records).value,
                                               SharesTable(dir, c.ownership, |league|).value)))
      && (SharesTable(dir, c.ownership, TotalTeams(c.records)).Ok? ==>
            ReportAsWritten(dir, league) == Ok(Report(Points.PointsTableOf(c.records).value,
                                                      Transfers.TransfersTableOf(c.records).value,
                                                      SharesTable(dir, c.ownership, TotalTeams(c.records)).value)))
  {
  }

  /** The source counts the two teams as one: player 7 shows as owned by
      "2 / 1" of the teams, 200%. */
  lemma SharedTeamNameOverCounts()
    ensures ReportAsWritten(SameNameDirectory(), SameNameLeague()).Ok?
    ensures ReportAsWritten(SameNameDirectory(), SameNameLeague()).value.shares == [ShareRow("Salah", 2, 1)]
    ensures Fraction(ShareRow("Salah", 2, 1)) == "2 / 1" && Percentage(ShareRow("Salah", 2, 1)) == 200.0
  {
    SameNamePercentages();
    SameNameCollection();
    SameNameTally();
    TallyContents([7, 7]);
    SameNameTables();
    SameNameShares();
    ReportFromTables(SameNameDirectory(), SameNameLeague());
    SameNameFraction();
  }

  /** Over the number of managers the same league shows player 7 owned by
      both of the two managers, 100%. */
  lemma SharedTeamNameCorrected()
    ensures ReportOf(SameNameDirectory(), SameNameLeague()).Ok?
    ensures ReportOf(SameNameDirectory(), SameNameLeague()).value.shares == [ShareRow("Salah", 2, 2)]
    ensures Percentage(ShareRow("Salah", 2, 2)) == 100.0
  {
    SameNamePercentages();
    SameNameCollection();
    SameNameTally();
    TallyContents([7, 7]);
    SameNameTables();
    SameNameShares();
    ReportFromTables(SameNameDirectory(), SameNameLeague());
  }

  lemma SameNamePercentages()
    ensures Percentage(ShareRow("Salah", 2, 1)) == 200.0
    ensures Percentage(ShareRow("Salah", 2, 2)) == 100.0
  {
    assert 2 as real / 1 as real == 2.0;
    assert 2 as real / 2 as real == 1.0;
  }

  lemma SameNameFraction()
    ensures Fraction(ShareRow("Salah", 2, 1)) == "2 / 1"
  {
    assert DigitChar(2) == '2' && DigitChar(1) == '1';
    assert IntToString(2) == "2" && IntToString(1) == "1";
    assert "2" + " / " + "1" == "2 / 1";
  }
}
