/** `do_bar_plot_player_count`: the number of players per joining year and joining league. */
module BarChart {
  import opened Records
  import opened Grouping

  /** The group-by key `(joined_year, joined_league)`. */
  datatype JoinKey = JoinKey(joinedYear: int, joinedLeague: string)

  /** What the bar chart receives. */
  datatype BarFigure = BarFigure(
    bars: seq<Group<JoinKey>>,
    categoryOrder: seq<string>,
    xRange: (real, real))

  function JoinKeys(players: seq<Player>): (ks: seq<JoinKey>)
    ensures |ks| == |players|
    ensures forall i :: 0 <= i < |players| ==> ks[i] == JoinKey(players[i].joinedYear, players[i].joinedLeague)
  {
    seq(|players|, i requires 0 <= i < |players| => JoinKey(players[i].joinedYear, players[i].joinedLeague))
  }

  /** `groupby(['joined_year', 'joined_league']).size()`: the rows of `count_df`. */
  function PlayerCounts(players: seq<Player>): seq<Group<JoinKey>> {
    GroupSizes(JoinKeys(players))
  }

  /** The bar chart data: the counts, the league order of the colour key, and the x range. */
  function BarPlotPlayerCount(players: seq<Player>): (f: BarFigure)
    ensures f.categoryOrder == ["J1", "J2", "J3"] && f.xRange == (2014.5, 2021.5)
    ensures f.bars == PlayerCounts(players) && TotalSize(f.bars) == |players|
  {
    PlayerCountsTotal(players);
    BarFigure(PlayerCounts(players), LeagueOrder, (2014.5, 2021.5))
  }

  /** Every count row is a key some player has, with the positive number of players having
      it; every player's key has a row; no key has two. */
  lemma PlayerCountsExact(players: seq<Player>)
    ensures var g := PlayerCounts(players);
      && (forall i :: 0 <= i < |g| ==>
            0 < g[i].size == Occurrences(JoinKeys(players), g[i].key))
      && (forall j :: 0 <= j < |players| ==>
            HasGroup(g, JoinKey(players[j].joinedYear, players[j].joinedLeague)))
      && (forall i, j :: 0 <= i < j < |g| ==> g[i].key != g[j].key)
  {
    var ks := JoinKeys(players);
    var g := PlayerCounts(players);
    forall j | 0 <= j < |players|
      ensures HasGroup(g, JoinKey(players[j].joinedYear, players[j].joinedLeague))
    {
      assert ks[j] == JoinKey(players[j].joinedYear, players[j].joinedLeague);
    }
  }

  /** The counts add up to the number of player rows. */
  lemma PlayerCountsTotal(players: seq<Player>)
    ensures TotalSize(PlayerCounts(players)) == |players|
  {
    GroupSizesTotal(JoinKeys(players));
  }
}
