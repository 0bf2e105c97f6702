/** `do_histogram_play_time`: one histogram series of minutes per league, J1, J2 and J3
    in that order. The bucketing into bins happens inside the chart library; the model
    keeps the bin parameters handed to it. */
module Histogram {
  import opened Records

  /** `xbins=dict(start=0, end=3600, size=100)`. */
  datatype Bins = Bins(start: int, end: int, size: int)

  const MinuteBins: Bins := Bins(0, 3600, 100)

  /** One `go.Histogram` trace. */
  datatype Trace = Trace(name: string, x: seq<real>, xbins: Bins)

  datatype HistogramFigure = HistogramFigure(traces: seq<Trace>, xRange: (int, int))

  /** `stats_df[stats_df['league_id'] == id]`. */
  function LeagueRows(stats: seq<StatRow>, id: int): (r: seq<StatRow>)
    ensures forall s :: s in r <==> s in stats && s.leagueId == id
  {
    if stats == [] then []
    else
      assert forall s :: s in stats <==> s == stats[0] || s in stats[1..];
      (if stats[0].leagueId == id then [stats[0]] else []) + LeagueRows(stats[1..], id)
  }

  /** `stats_df[stats_df['league_id'] == id]['minutes']`. */
  function LeagueMinutes(stats: seq<StatRow>, id: int): (r: seq<real>)
    ensures |r| == |LeagueRows(stats, id)|
    ensures forall k :: 0 <= k < |r| ==> r[k] == LeagueRows(stats, id)[k].minutes
  {
    if stats == [] then []
    else (if stats[0].leagueId == id then [stats[0].minutes] else []) + LeagueMinutes(stats[1..], id)
  }

  /** The minutes of the rows whose league id is one of 1, 2, 3. */
  function KnownLeagueMinutes(stats: seq<StatRow>): seq<real> {
    if stats == [] then []
    else (if 1 <= stats[0].leagueId <= 3 then [stats[0].minutes] else []) + KnownLeagueMinutes(stats[1..])
  }

  /** Builds the histogram: appends, for league ids 1, 2, 3 in that order, the series of
      that league's minutes, named after the league. */
  method HistogramPlayTime(stats: seq<StatRow>) returns (fig: HistogramFigure)
    ensures |fig.traces| == |LeagueOrder|
    ensures forall k :: 0 <= k < |fig.traces| ==>
      fig.traces[k] == Trace(LeagueOrder[k], LeagueMinutes(stats, k + 1), MinuteBins)
    ensures fig.xRange == (0, 3600)
  {
    var traces: seq<Trace> := [];
    for id := 1 to 4
      invariant |traces| == id - 1
      invariant forall k :: 0 <= k < |traces| ==>
        traces[k] == Trace(LeagueOrder[k], LeagueMinutes(stats, k + 1), MinuteBins)
    {
      traces := traces + [Trace(LeagueName(id), LeagueMinutes(stats, id), MinuteBins)];
    }
    fig := HistogramFigure(traces, (0, 3600));
  }

  /** No row lands in two series: the rows selected for two different league ids have
      nothing in common. */
  lemma SeriesDisjoint(stats: seq<StatRow>, id: int, id': int)
    requires id != id'
    ensures multiset(LeagueRows(stats, id)) !! multiset(LeagueRows(stats, id'))
  {
    var a, b := LeagueRows(stats, id), LeagueRows(stats, id');
    forall s | s in multiset(a) ensures s !in multiset(b) {
      assert s in a;
    }
  }

  /** The three series together hold exactly the minutes of the rows whose league id is
      1, 2 or 3, each once. */
  lemma {:induction false} SeriesCoverKnownLeagues(stats: seq<StatRow>)
    ensures multiset(LeagueMinutes(stats, 1)) + multiset(LeagueMinutes(stats, 2))
          + multiset(LeagueMinutes(stats, 3)) == multiset(KnownLeagueMinutes(stats))
  {
    if stats != [] {
      SeriesCoverKnownLeagues(stats[1..]);
    }
  }
}
