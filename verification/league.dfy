/** The league data the dashboard reads, as plain values: what the standings,
    history, picks and transfers endpoints return, and the per-gameweek record
    the collector emits. */
module League {
  import opened Types

  /** One row of the league standings: `entry`, `entry_name`, `player_name`, `total`. */
  datatype Standing = Standing(entry: int, entryName: string, playerName: string, total: int)

  /** The `chip` key of a history entry: absent, present with JSON null, or a chip name. */
  datatype ChipField = NoChipKey | ChipNull | Chip(name: string)

  /** One entry of a manager's `current` history. */
  datatype GameweekHistory = GameweekHistory(event: int, points: int, chip: ChipField)

  /** One entry of a manager's transfer log; costs are in tenths of a unit. */
  datatype Transfer = Transfer(event: int, elementIn: int, elementInCost: int,
                               elementOut: int, elementOutCost: int)

  /** Everything fetched for one standings row: its history, the pick lists the
      picks endpoint would return per event, and its transfer log. */
  datatype LeagueMember = LeagueMember(team: Standing, history: seq<GameweekHistory>,
                                       picks: map<int, seq<int>>, transfers: seq<Transfer>)

  /** A player moved in or out: the directory name and the transfer's own cost
      (in tenths; the source divides it by 10 for display). */
  datatype PlayerMove = PlayerMove(name: string, price: int)

  datatype TransferMade = TransferMade(playerIn: PlayerMove, playerOut: PlayerMove)

  /** The dict appended to `teams_data` for one gameweek of one manager.
      `chipPlayed` is `None` only where Python would hold its `None` object. */
  datatype GameweekRecord = GameweekRecord(teamName: string, managerName: string, totalPoints: int,
                                           gameweek: int, points: int, numTransfers: int,
                                           transfers: seq<TransferMade>, chipPlayed: Option<string>)
}
