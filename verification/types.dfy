/** Shared result types of the dashboard model: the optional value, the
    success-or-failure wrapper, and the fatal errors the pipeline can raise. */
module Types {

  datatype Option<+T> = None | Some(value: T)

  /** Every error in the dashboard is fatal: it aborts the whole report. */
  datatype Result<+T> = Ok(value: T) | Err(error: Error)

  datatype Error =
      /** `element_to_player[id]` on an id the player catalog does not hold (KeyError). */
    | UnknownPlayer(id: int)
      /** `history_data["current"][-1]` on an entry with no gameweek history (IndexError). */
    | EmptyHistory(entry: int)
      /** The picks request for that entry and event did not succeed (`raise_for_status`). */
    | MissingPicks(entry: int, event: int)
      /** A points-table cell with no value, which the integer cast cannot convert. */
    | MissingPoints
      /** Building the tables from no records at all: the empty DataFrame has no columns. */
    | NoRecords
      /** No player was picked: the empty ownership table has no column to sort by (KeyError). */
    | NoPicks
}
