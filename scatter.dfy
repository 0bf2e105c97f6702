/** `do_scatter_plot_play_time`: one band of four vertical units per player, one row of
    the band per league, the rookie year on the horizontal axis. */
module Scatter {
  import opened Records
  import opened Retry

  /** A player row with its `player_index` column. */
  datatype IndexedPlayer = IndexedPlayer(player: PlayerLabel, index: nat)

  /** A stat row joined to the index of the player it names. */
  datatype Joined = Joined(stat: StatRow, playerIndex: nat)

  /** One scatter marker: x is the rookie year, the area follows the minutes, the colour the league. */
  datatype Point = Point(x: int, y: int, size: real, color: string)

  /** Everything the chart receives besides the points. */
  datatype Layout = Layout(
    height: int,
    categoryOrder: seq<string>,
    yRange: (int, int),
    xRange: (real, real),
    tickVals: seq<int>,
    tickText: seq<string>)

  datatype ScatterFigure = ScatterFigure(points: seq<Point>, layout: Layout)

  /** `reset_index(drop=True).reset_index(drop=False)`: each player's index is its row position. */
  function IndexPlayers(players: seq<PlayerLabel>): (r: seq<IndexedPlayer>)
    ensures |r| == |players|
    ensures forall i :: 0 <= i < |r| ==> r[i].player == players[i] && r[i].index == i
    ensures forall e :: e in r ==> e.index < |players|
    ensures forall i, j :: 0 <= i < j < |r| ==> r[i].index < r[j].index
  {
    seq(|players|, i requires 0 <= i < |players| => IndexedPlayer(players[i], i))
  }

  /** The rows of `index` whose player has the stat row's name, joined to it. */
  function Matches(s: StatRow, index: seq<IndexedPlayer>): seq<Joined> {
    if index == [] then []
    else
      var rest := Matches(s, index[1..]);
      if index[0].player.name == s.playerName then [Joined(s, index[0].index)] + rest else rest
  }

  /** `pd.merge(stats_df, rookie_df[['player_name', 'player_index']], on='player_name')`:
      an inner join in the order of the stat rows. */
  function JoinIndex(stats: seq<StatRow>, index: seq<IndexedPlayer>): seq<Joined> {
    if stats == [] then []
    else Matches(stats[0], index) + JoinIndex(stats[1..], index)
  }

  /** Every match comes from a player of the stat row's name, and a name that is present
      matches at least once. */
  lemma {:induction false} MatchesMembers(s: StatRow, index: seq<IndexedPlayer>)
    ensures forall j :: j in Matches(s, index) ==>
      j.stat == s && exists p :: p in index && p.player.name == s.playerName && p.index == j.playerIndex
    ensures (exists p :: p in index && p.player.name == s.playerName) ==> Matches(s, index) != []
  {
    if index != [] {
      MatchesMembers(s, index[1..]);
      assert forall p :: p in index[1..] ==> p in index;
      assert forall p :: p in index ==> p == index[0] || p in index[1..];
    }
  }

  /** The join yields only stat rows tagged with the index of a player of that name, and
      keeps every stat row whose name is present. */
  lemma {:induction false} JoinIndexMembers(stats: seq<StatRow>, index: seq<IndexedPlayer>)
    ensures forall j :: j in JoinIndex(stats, index) ==>
      j.stat in stats && exists p :: p in index && p.player.name == j.stat.playerName && p.index == j.playerIndex
    ensures forall s :: s in stats && (exists p :: p in index && p.player.name == s.playerName) ==>
      exists j :: j in JoinIndex(stats, index) && j.stat == s
  {
    if stats != [] {
      var m := Matches(stats[0], index);
      var rest := JoinIndex(stats[1..], index);
      MatchesMembers(stats[0], index);
      JoinIndexMembers(stats[1..], index);
      assert forall s :: s in stats[1..] ==> s in stats;
      assert forall s :: s in stats ==> s == stats[0] || s in stats[1..];
      assert forall j :: j in m + rest ==> j in m || j in rest;
      if m != [] {
        assert m[0] in m + rest;
      }
      forall j | j in rest ensures j in m + rest { }
    }
  }

  /** The vertical coordinate `4 * player_index + league_id`. */
  function Y(playerIndex: int, leagueId: int): int {
    4 * playerIndex + leagueId
  }

  /** The joined rows as markers. */
  function Points(joined: seq<Joined>): (r: seq<Point>)
    ensures |r| == |joined|
  {
    seq(|joined|, k requires 0 <= k < |joined| =>
      var s := joined[k].stat;
      Point(s.rookieYear, Y(joined[k].playerIndex, s.leagueId), s.minutes, s.league))
  }

  /** `max(230, (len(rookie_df) + 1) * 80)` pixels. */
  function Height(n: nat): (h: int)
    ensures h >= 230 && h >= (n + 1) * 80
    ensures h == 230 || h == (n + 1) * 80
  {
    if (n + 1) * 80 > 230 then (n + 1) * 80 else 230
  }

  /** The axes and ticks: y from `4 * N` down to 0, x over the seven rookie years,
      one tick per player at the middle of its band carrying its label. */
  function ScatterLayout(index: seq<IndexedPlayer>): Layout {
    Layout(
      Height(|index|),
      LeagueOrder,
      (4 * |index|, 0),
      (0.5, 7.5),
      seq(|index|, i requires 0 <= i < |index| => index[i].index * 4 + 2),
      seq(|index|, i requires 0 <= i < |index| => index[i].player.displayName))
  }

  /** Builds the scatter chart of `stats` against `players`; the chart library is called
      through the retry, and its k-th call does what `render(k)` says. */
  method ScatterPlotPlayTime(players: seq<PlayerLabel>, stats: seq<StatRow>, render: nat -> Attempt)
    returns (r: Result<ScatterFigure>, calls: nat, logged: bool)
    ensures 1 <= calls <= MaxAttempts
    ensures calls == 1 <==> render(0).Rendered?
    ensures r.Ok? <==> exists k :: 0 <= k < MaxAttempts && render(k).Rendered?
    ensures r.Ok? ==> r.value == ScatterFigure(
      Points(JoinIndex(stats, IndexPlayers(players))),
      ScatterLayout(IndexPlayers(players)))
    ensures r.Err? ==> render(1) == Raised(r.error) && render(0).Raised?
    ensures logged <==> r.Err?
  {
    var index := IndexPlayers(players);
    var joined := JoinIndex(stats, index);
    var points := Points(joined);
    var outcome;
    outcome, calls, logged := RenderWithRetry(render);
    if outcome.Raised? {
      r := Err(outcome.error);
      return;
    }
    r := Ok(ScatterFigure(points, ScatterLayout(index)));
  }

  // ---- Properties of the layout ----

  /** Each player's indices are its row positions, so the join tags each stat row with
      the position of a player of that name. */
  lemma JoinedIndexIsPosition(players: seq<PlayerLabel>, stats: seq<StatRow>)
    ensures forall j :: j in JoinIndex(stats, IndexPlayers(players)) ==>
      j.playerIndex < |players| && players[j.playerIndex].name == j.stat.playerName
  {
    var index := IndexPlayers(players);
    JoinIndexMembers(stats, index);
    forall j | j in JoinIndex(stats, index)
      ensures j.playerIndex < |players| && players[j.playerIndex].name == j.stat.playerName
    {
      var p :| p in index && p.player.name == j.stat.playerName && p.index == j.playerIndex;
      var i :| 0 <= i < |index| && index[i] == p;
    }
  }

  /** `player_name` is the unique key of the player table. */
  ghost predicate UniqueNames(players: seq<PlayerLabel>) {
    forall i, j :: 0 <= i < j < |players| ==> players[i].name != players[j].name
  }

  /** The stat rows naming some player, in order. */
  function KnownRows(stats: seq<StatRow>, players: seq<PlayerLabel>): seq<StatRow> {
    if stats == [] then []
    else
      (if exists p :: p in players && p.name == stats[0].playerName then [stats[0]] else [])
      + KnownRows(stats[1..], players)
  }

  /** The stat rows of a join, in order. */
  function StatsOf(joined: seq<Joined>): seq<StatRow> {
    if joined == [] then [] else [joined[0].stat] + StatsOf(joined[1..])
  }

  lemma {:induction false} StatsOfAppend(a: seq<Joined>, b: seq<Joined>)
    ensures StatsOf(a + b) == StatsOf(a) + StatsOf(b)
  {
    if a == [] {
      assert a + b == b;
    } else {
      assert (a + b)[1..] == a[1..] + b;
      StatsOfAppend(a[1..], b);
    }
  }

  /** Against an index with unique names a stat row matches once or not at all. */
  lemma {:induction false} MatchesAtMostOnce(s: StatRow, index: seq<IndexedPlayer>)
    requires forall i, j :: 0 <= i < j < |index| ==> index[i].player.name != index[j].player.name
    ensures StatsOf(Matches(s, index)) ==
      if exists p :: p in index && p.player.name == s.playerName then [s] else []
  {
    if index != [] {
      MatchesAtMostOnce(s, index[1..]);
      if index[0].player.name == s.playerName {
        assert !exists p :: p in index[1..] && p.player.name == s.playerName by {
          forall p | p in index[1..] ensures p.player.name != s.playerName {
            var i :| 0 <= i < |index[1..]| && index[1..][i] == p;
            assert index[0].player.name != index[i + 1].player.name;
          }
        }
        assert Matches(s, index[1..]) == [];
        assert StatsOf([Joined(s, index[0].index)]) == [s];
      } else {
        assert forall p :: p in index ==> p == index[0] || p in index[1..];
      }
    }
  }

  /** With unique player names the join keeps exactly the stat rows that name a known
      player, in their order, each once. */
  lemma {:induction false} JoinKeepsKnownRows(players: seq<PlayerLabel>, stats: seq<StatRow>)
    requires UniqueNames(players)
    ensures StatsOf(JoinIndex(stats, IndexPlayers(players))) == KnownRows(stats, players)
  {
    if stats != [] {
      var index := IndexPlayers(players);
      JoinKeepsKnownRows(players, stats[1..]);
      MatchesKnownRow(players, stats[0]);
      StatsOfAppend(Matches(stats[0], index), JoinIndex(stats[1..], index));
    }
  }

  /** One stat row joins once when it names a known player and not at all otherwise. */
  lemma MatchesKnownRow(players: seq<PlayerLabel>, s: StatRow)
    requires UniqueNames(players)
    ensures StatsOf(Matches(s, IndexPlayers(players))) ==
      if exists p :: p in players && p.name == s.playerName then [s] else []
  {
    var index := IndexPlayers(players);
    MatchesAtMostOnce(s, index);
    var name := s.playerName;
    if exists p :: p in players && p.name == name {
      var p :| p in players && p.name == name;
      var i :| 0 <= i < |players| && players[i] == p;
      assert index[i] in index;
    }
    if exists q :: q in index && q.player.name == name {
      var q :| q in index && q.player.name == name;
      var i :| 0 <= i < |index| && index[i] == q;
      assert players[i] in players;
    }
  }

  /** A league row of a player lies strictly inside the player's band. */
  lemma YInBand(playerIndex: int, leagueId: int)
    requires 1 <= leagueId <= 3
    ensures 4 * playerIndex < Y(playerIndex, leagueId) < 4 * playerIndex + 4
  {
  }

  /** Different (player, league) pairs never share a vertical coordinate. */
  lemma YInjective(i: int, l: int, i': int, l': int)
    requires 1 <= l <= 3 && 1 <= l' <= 3
    requires Y(i, l) == Y(i', l')
    ensures i == i' && l == l'
  {
  }

  /** Every marker lies inside the y-axis range `[4 * N, 0]`, in the band of the player
      its stat row names, within one unit of that player's tick. */
  lemma PointsInsideAxis(players: seq<PlayerLabel>, stats: seq<StatRow>)
    requires forall s :: s in stats ==> 1 <= s.leagueId <= 3
    ensures var joined := JoinIndex(stats, IndexPlayers(players));
      var pts := Points(joined);
      var layout := ScatterLayout(IndexPlayers(players));
      forall k :: 0 <= k < |pts| ==>
        && layout.yRange.1 < pts[k].y < layout.yRange.0
        && 4 * joined[k].playerIndex < pts[k].y < 4 * joined[k].playerIndex + 4
        && players[joined[k].playerIndex].name == joined[k].stat.playerName
        && -1 <= pts[k].y - layout.tickVals[joined[k].playerIndex] <= 1
  {
    var index := IndexPlayers(players);
    var joined := JoinIndex(stats, index);
    JoinedIndexIsPosition(players, stats);
    JoinIndexMembers(stats, index);
    forall k | 0 <= k < |joined|
      ensures joined[k].playerIndex < |players|
      ensures 1 <= joined[k].stat.leagueId <= 3
    {
      assert joined[k] in joined;
    }
  }

  /** The ticks: one per player, in player order, each at the middle of its player's band
      and labelled with that player's label; and the axis ranges. */
  lemma TicksMatchPlayers(players: seq<PlayerLabel>)
    ensures var layout := ScatterLayout(IndexPlayers(players));
      && layout.yRange == (4 * |players|, 0)
      && layout.xRange == (0.5, 7.5)
      && layout.categoryOrder == ["J1", "J2", "J3"]
      && |layout.tickVals| == |layout.tickText| == |players|
      && (forall i :: 0 <= i < |players| ==>
            layout.tickText[i] == players[i].displayName
            && 4 * i < layout.tickVals[i] < 4 * i + 4
            && 0 < layout.tickVals[i] < 4 * |players|)
      && (forall i, j :: 0 <= i < j < |players| ==> layout.tickVals[i] < layout.tickVals[j])
  {
  }

  /** The chart is never shorter than 230 pixels and grows by 80 per player from two players on. */
  lemma HeightGrowth(n: nat)
    ensures Height(n) >= 230
    ensures n <= 1 ==> Height(n) == 230
    ensures n >= 2 ==> Height(n + 1) == Height(n) + 80
  {
  }
}
