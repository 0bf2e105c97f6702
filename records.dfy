/** The rows of the two input tables, the chart-library outcome and the league vocabulary. */
module Records {

  /** One row of the player table (rookie_df). */
  datatype Player = Player(
    name: string,
    displayName: string,
    joinedYear: int,
    joinedLeague: string,
    curRookieYear: int)

  /** The two player columns the scatter chart reads: player_name and player_label. */
  datatype PlayerLabel = PlayerLabel(name: string, displayName: string)

  /** One row of the per-player, per-season stat table (stats_df). */
  datatype StatRow = StatRow(
    playerName: string,
    rookieYear: int,
    leagueId: int,
    league: string,
    minutes: real,
    apps: real,
    goals: real)

  /** A chart, or the message of the exception the chart library raised. */
  datatype Result<T> = Ok(value: T) | Err(error: string)

  /** The fixed category order of the league colour key. */
  const LeagueOrder: seq<string> := ["J1", "J2", "J3"]

  /** The series name `f'J{league_id}'` used by the histogram. */
  function LeagueName(id: int): (s: string)
    requires 1 <= id <= 3
    ensures s == LeagueOrder[id - 1]
  {
    "J" + [('0' as int + id) as char]
  }
}
