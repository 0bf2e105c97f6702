/** `do_scatter_plot_avg_play_time`: per rookie year and league, the minutes, appearances
    and goals per player still active in that year, drawn as the scatter chart of a
    single pseudo-player "Avg.". */
module Average {
  import opened Records
  import opened Grouping
  import opened Cohort
  import opened Retry
  import opened Scatter

  /** The group-by key `(rookie_year, league_id, league)`. */
  datatype StatKey = StatKey(rookieYear: int, leagueId: int, league: string)

  /** The three summed and averaged columns. */
  datatype Field = Minutes | Apps | Goals

  datatype Totals = Totals(minutes: real, apps: real, goals: real) {
    function Get(f: Field): real {
      match f
      case Minutes => minutes
      case Apps => apps
      case Goals => goals
    }

    /** Overwrites one column, keeping the other two. */
    function Set(f: Field, v: real): (t: Totals)
      ensures t.Get(f) == v
      ensures forall g :: g != f ==> t.Get(g) == Get(g)
    {
      match f
      case Minutes => this.(minutes := v)
      case Apps => this.(apps := v)
      case Goals => this.(goals := v)
    }
  }

  /** A row of the grouped sums. */
  datatype KeyedTotals = KeyedTotals(key: StatKey, totals: Totals)

  /** A row of the grouped sums merged with its cohort's `player_count`. */
  datatype AggRow = AggRow(key: StatKey, totals: Totals, playerCount: int)

  /** `for field in ['minutes', 'apps', 'goals']`. */
  const AveragedFields: seq<Field> := [Minutes, Apps, Goals]

  /** The position of a field in `AveragedFields`. */
  function FieldIndex(f: Field): (n: nat)
    ensures n < |AveragedFields| && AveragedFields[n] == f
  {
    match f
    case Minutes => 0
    case Apps => 1
    case Goals => 2
  }

  /** The pseudo-player standing for the league average. */
  const AvgName: string := "Avg."

  function KeyOf(s: StatRow): StatKey {
    StatKey(s.rookieYear, s.leagueId, s.league)
  }

  function Keys(stats: seq<StatRow>): (ks: seq<StatKey>)
    ensures |ks| == |stats|
    ensures forall i :: 0 <= i < |stats| ==> ks[i] == KeyOf(stats[i])
  {
    seq(|stats|, i requires 0 <= i < |stats| => KeyOf(stats[i]))
  }

  /** Column sums over the rows with key `key`. */
  function TotalsFor(stats: seq<StatRow>, key: StatKey): Totals {
    if stats == [] then Totals(0.0, 0.0, 0.0)
    else
      var t := TotalsFor(stats[1..], key);
      if KeyOf(stats[0]) == key
      then Totals(stats[0].minutes + t.minutes, stats[0].apps + t.apps, stats[0].goals + t.goals)
      else t
  }

  /** `groupby(['rookie_year', 'league_id', 'league'])[['minutes', 'apps', 'goals']].sum()`:
      one row per key present, holding that key's column sums. */
  function GroupSums(stats: seq<StatRow>): (g: seq<KeyedTotals>)
    ensures forall i :: 0 <= i < |g| ==> g[i].key in Keys(stats) && g[i].totals == TotalsFor(stats, g[i].key)
    ensures forall j :: 0 <= j < |stats| ==> exists i :: 0 <= i < |g| && g[i].key == KeyOf(stats[j])
    ensures forall i, j :: 0 <= i < j < |g| ==> g[i].key != g[j].key
  {
    var d := Distinct(Keys(stats));
    var g := TotalsOf(d, stats);
    assert forall j :: 0 <= j < |stats| ==> exists i :: 0 <= i < |g| && g[i].key == KeyOf(stats[j]) by {
      forall j | 0 <= j < |stats| ensures exists i :: 0 <= i < |g| && g[i].key == KeyOf(stats[j]) {
        assert Keys(stats)[j] in d;
        var i :| 0 <= i < |d| && d[i] == Keys(stats)[j];
        assert g[i].key == KeyOf(stats[j]);
      }
    }
    g
  }

  /** One row of column sums per key of `d`. */
  function TotalsOf(d: seq<StatKey>, stats: seq<StatRow>): (g: seq<KeyedTotals>)
    ensures |g| == |d|
    ensures forall i :: 0 <= i < |d| ==> g[i] == KeyedTotals(d[i], TotalsFor(stats, d[i]))
  {
    seq(|d|, i requires 0 <= i < |d| => KeyedTotals(d[i], TotalsFor(stats, d[i])))
  }

  /** The cohort rows of `t`'s rookie year, merged onto `t`. */
  function CountMatches(t: KeyedTotals, cohorts: seq<CohortCount>): seq<AggRow> {
    if cohorts == [] then []
    else
      var rest := CountMatches(t, cohorts[1..]);
      if cohorts[0].rookieYear == t.key.rookieYear
      then [AggRow(t.key, t.totals, cohorts[0].playerCount)] + rest
      else rest
  }

  /** `pd.merge(agg_stats_df, count_df, on='rookie_year')`: an inner join in the order of
      the grouped rows. */
  function JoinCounts(groups: seq<KeyedTotals>, cohorts: seq<CohortCount>): seq<AggRow> {
    if groups == [] then []
    else CountMatches(groups[0], cohorts) + JoinCounts(groups[1..], cohorts)
  }

  /** A grouped row merges only with cohort rows of its rookie year, and with at least one
      when there is one. */
  lemma {:induction false} CountMatchesMembers(t: KeyedTotals, cohorts: seq<CohortCount>)
    ensures forall a :: a in CountMatches(t, cohorts) ==>
      a.key == t.key && a.totals == t.totals && CohortCount(t.key.rookieYear, a.playerCount) in cohorts
    ensures (exists c :: c in cohorts && c.rookieYear == t.key.rookieYear) ==> CountMatches(t, cohorts) != []
  {
    if cohorts != [] {
      CountMatchesMembers(t, cohorts[1..]);
      assert forall c :: c in cohorts[1..] ==> c in cohorts;
      assert forall c :: c in cohorts ==> c == cohorts[0] || c in cohorts[1..];
    }
  }

  /** The inner join yields only grouped rows with a cohort count of their year, and keeps
      every grouped row whose year has a cohort row. */
  lemma {:induction false} JoinCountsMembers(groups: seq<KeyedTotals>, cohorts: seq<CohortCount>)
    ensures forall a :: a in JoinCounts(groups, cohorts) ==>
      KeyedTotals(a.key, a.totals) in groups && CohortCount(a.key.rookieYear, a.playerCount) in cohorts
    ensures forall t :: t in groups && (exists c :: c in cohorts && c.rookieYear == t.key.rookieYear) ==>
      exists a :: a in JoinCounts(groups, cohorts) && a.key == t.key && a.totals == t.totals
  {
    if groups != [] {
      var m := CountMatches(groups[0], cohorts);
      var rest := JoinCounts(groups[1..], cohorts);
      CountMatchesMembers(groups[0], cohorts);
      JoinCountsMembers(groups[1..], cohorts);
      assert forall t :: t in groups[1..] ==> t in groups;
      assert forall t :: t in groups ==> t == groups[0] || t in groups[1..];
      assert forall a :: a in m + rest ==> a in m || a in rest;
      if m != [] {
        assert m[0] in m + rest;
      }
      forall a | a in rest ensures a in m + rest { }
    }
  }

  /** `agg_stats_df[field] = agg_stats_df[field] / agg_stats_df['player_count']` for one field. */
  function DivideColumn(rows: seq<AggRow>, f: Field): (r: seq<AggRow>)
    requires forall k :: 0 <= k < |rows| ==> rows[k].playerCount > 0
    ensures |r| == |rows|
    ensures forall k :: 0 <= k < |rows| ==>
      && r[k].key == rows[k].key && r[k].playerCount == rows[k].playerCount
      && r[k].totals.Get(f) == rows[k].totals.Get(f) / rows[k].playerCount as real
      && forall g :: g != f ==> r[k].totals.Get(g) == rows[k].totals.Get(g)
  {
    seq(|rows|, k requires 0 <= k < |rows| =>
      var a := rows[k];
      a.(totals := a.totals.Set(f, a.totals.Get(f) / a.playerCount as real)))
  }

  /** Lines 75 and 76: every averaged column of every row divided by its cohort's
      `player_count`, everything else untouched. */
  method DivideByCount(rows: seq<AggRow>) returns (out: seq<AggRow>)
    requires forall k :: 0 <= k < |rows| ==> rows[k].playerCount > 0
    ensures |out| == |rows|
    ensures forall k :: 0 <= k < |rows| ==>
      out[k].key == rows[k].key && out[k].playerCount == rows[k].playerCount
    ensures forall k, f :: 0 <= k < |rows| ==>
      out[k].totals.Get(f) == rows[k].totals.Get(f) / rows[k].playerCount as real
  {
    out := rows;
    for i := 0 to |AveragedFields|
      invariant |out| == |rows|
      invariant forall k :: 0 <= k < |rows| ==>
        out[k].key == rows[k].key && out[k].playerCount == rows[k].playerCount
      invariant forall k, f :: 0 <= k < |rows| ==>
        out[k].totals.Get(f) ==
          if FieldIndex(f) < i then rows[k].totals.Get(f) / rows[k].playerCount as real
          else rows[k].totals.Get(f)
    {
      assert FieldIndex(AveragedFields[i]) == i;
      out := DivideColumn(out, AveragedFields[i]);
    }
    forall k, f | 0 <= k < |rows|
      ensures out[k].totals.Get(f) == rows[k].totals.Get(f) / rows[k].playerCount as real
    {
      assert FieldIndex(f) < |AveragedFields|;
    }
  }

  /** The inner join keeps exactly the grouped rows whose rookie year has a positive
      cohort count, and gives each the count of its year: no divisor at line 76 is 0. */
  lemma JoinedCountsPositive(players: seq<Player>, stats: seq<StatRow>)
    ensures var agg := JoinCounts(GroupSums(stats), Cohorts(players));
      var s := SuffixCounts(players);
      && (forall a :: a in agg ==>
            1 <= a.key.rookieYear <= MaxRookieYear
            && a.playerCount == s[a.key.rookieYear - 1] > 0)
      && (forall t :: (t in GroupSums(stats) && 1 <= t.key.rookieYear <= MaxRookieYear
                       && s[t.key.rookieYear - 1] > 0) ==>
            exists a :: a in agg && a.key == t.key && a.totals == t.totals)
  {
    JoinedCountsAreCohorts(players, GroupSums(stats));
    PositiveYearsJoin(players, GroupSums(stats));
  }

  lemma JoinedCountsAreCohorts(players: seq<Player>, groups: seq<KeyedTotals>)
    ensures var s := SuffixCounts(players);
      forall a :: a in JoinCounts(groups, Cohorts(players)) ==>
        1 <= a.key.rookieYear <= MaxRookieYear && a.playerCount == s[a.key.rookieYear - 1] > 0
  {
    JoinCountsMembers(groups, Cohorts(players));
    forall a | a in JoinCounts(groups, Cohorts(players))
      ensures 1 <= a.key.rookieYear <= MaxRookieYear && a.playerCount == SuffixCounts(players)[a.key.rookieYear - 1] > 0
    {
      CohortLookup(players, CohortCount(a.key.rookieYear, a.playerCount));
    }
  }

  lemma PositiveYearsJoin(players: seq<Player>, groups: seq<KeyedTotals>)
    ensures var s := SuffixCounts(players);
      forall t :: (t in groups && 1 <= t.key.rookieYear <= MaxRookieYear && s[t.key.rookieYear - 1] > 0) ==>
        exists a :: a in JoinCounts(groups, Cohorts(players)) && a.key == t.key && a.totals == t.totals
  {
    JoinCountsMembers(groups, Cohorts(players));
    var s := SuffixCounts(players);
    forall t | t in groups && 1 <= t.key.rookieYear <= MaxRookieYear && s[t.key.rookieYear - 1] > 0
      ensures exists c :: c in Cohorts(players) && c.rookieYear == t.key.rookieYear
    {
      CohortLookup(players, CohortCount(t.key.rookieYear, s[t.key.rookieYear - 1]));
    }
  }

  /** The grouped row each joined row came from: the join without its `player_count`. */
  function GroupPart(agg: seq<AggRow>): (g: seq<KeyedTotals>)
    ensures |g| == |agg|
    ensures forall k :: 0 <= k < |agg| ==> g[k] == KeyedTotals(agg[k].key, agg[k].totals)
  {
    if agg == [] then [] else [KeyedTotals(agg[0].key, agg[0].totals)] + GroupPart(agg[1..])
  }

  lemma {:induction false} GroupPartAppend(a: seq<AggRow>, b: seq<AggRow>)
    ensures GroupPart(a + b) == GroupPart(a) + GroupPart(b)
  {
    if a == [] {
      assert a + b == b;
    } else {
      assert (a + b)[1..] == a[1..] + b;
      GroupPartAppend(a[1..], b);
    }
  }

  /** The grouped rows whose rookie year is in 1..7 and has a positive count in `counts`. */
  function PositiveGroups(groups: seq<KeyedTotals>, counts: seq<int>): (r: seq<KeyedTotals>)
    requires |counts| == MaxRookieYear
    ensures forall t :: t in r <==>
      t in groups && 1 <= t.key.rookieYear <= MaxRookieYear && counts[t.key.rookieYear - 1] > 0
  {
    if groups == [] then []
    else
      var t := groups[0];
      assert forall u :: u in groups <==> u == t || u in groups[1..];
      (if 1 <= t.key.rookieYear <= MaxRookieYear && counts[t.key.rookieYear - 1] > 0 then [t] else [])
      + PositiveGroups(groups[1..], counts)
  }

  /** No two rows of `g` share a key. */
  ghost predicate DistinctKeys(g: seq<KeyedTotals>) {
    forall i, j :: 0 <= i < j < |g| ==> g[i].key != g[j].key
  }

  /** Filtering keeps grouped rows with distinct keys distinct. */
  lemma {:induction false} PositiveGroupsDistinct(groups: seq<KeyedTotals>, counts: seq<int>)
    requires |counts| == MaxRookieYear
    requires DistinctKeys(groups)
    ensures DistinctKeys(PositiveGroups(groups, counts))
  {
    if groups != [] {
      var t, rest := groups[0], groups[1..];
      DistinctKeysTail(groups);
      PositiveGroupsDistinct(rest, counts);
      var r' := PositiveGroups(rest, counts);
      forall u | u in r' ensures u.key != t.key {
        var i :| 0 <= i < |rest| && rest[i] == u;
        assert groups[i + 1] == u;
        assert groups[0].key != groups[i + 1].key;
      }
      if 1 <= t.key.rookieYear <= MaxRookieYear && counts[t.key.rookieYear - 1] > 0 {
        assert PositiveGroups(groups, counts) == [t] + r';
        DistinctKeysCons(t, r');
      } else {
        assert PositiveGroups(groups, counts) == r';
      }
    }
  }

  lemma DistinctKeysTail(g: seq<KeyedTotals>)
    requires g != [] && DistinctKeys(g)
    ensures DistinctKeys(g[1..])
  {
    var rest := g[1..];
    forall i, j | 0 <= i < j < |rest| ensures rest[i].key != rest[j].key {
      assert g[i + 1].key != g[j + 1].key;
    }
  }

  lemma DistinctKeysCons(t: KeyedTotals, g: seq<KeyedTotals>)
    requires DistinctKeys(g) && forall u :: u in g ==> u.key != t.key
    ensures DistinctKeys([t] + g)
  {
    var r := [t] + g;
    forall i, j | 0 <= i < j < |r| ensures r[i].key != r[j].key {
      assert r[j] == g[j - 1];
      assert g[j - 1] in g;
      if i > 0 {
        assert r[i] == g[i - 1];
      }
    }
  }

  /** Some cohort row has rookie year `y`. */
  ghost predicate HasCohort(cohorts: seq<CohortCount>, y: int) {
    exists c :: c in cohorts && c.rookieYear == y
  }

  /** Against cohort rows with distinct rookie years a grouped row merges once or not at all. */
  lemma {:induction false} CountMatchesAtMostOnce(t: KeyedTotals, cohorts: seq<CohortCount>)
    requires forall i, j :: 0 <= i < j < |cohorts| ==> cohorts[i].rookieYear != cohorts[j].rookieYear
    ensures GroupPart(CountMatches(t, cohorts)) == if HasCohort(cohorts, t.key.rookieYear) then [t] else []
  {
    if cohorts != [] {
      CountMatchesAtMostOnce(t, cohorts[1..]);
      var rest := CountMatches(t, cohorts[1..]);
      if cohorts[0].rookieYear == t.key.rookieYear {
        assert !exists c :: c in cohorts[1..] && c.rookieYear == t.key.rookieYear by {
          forall c | c in cohorts[1..] ensures c.rookieYear != t.key.rookieYear {
            var i :| 0 <= i < |cohorts[1..]| && cohorts[1..][i] == c;
            assert cohorts[0].rookieYear != cohorts[i + 1].rookieYear;
          }
        }
        assert rest == [] by {
          assert |GroupPart(rest)| == 0;
        }
        var a := AggRow(t.key, t.totals, cohorts[0].playerCount);
        assert CountMatches(t, cohorts) == [a];
        assert GroupPart([a]) == [KeyedTotals(t.key, t.totals)];
      } else {
        assert forall c :: c in cohorts ==> c == cohorts[0] || c in cohorts[1..];
      }
    }
  }

  /** The cohort rows carry distinct rookie years, and a year has one exactly when its
      count is positive. */
  lemma CohortYears(players: seq<Player>)
    ensures var r := Cohorts(players);
      forall i, j :: 0 <= i < j < |r| ==> r[i].rookieYear != r[j].rookieYear
    ensures forall y :: HasCohort(Cohorts(players), y) <==>
      1 <= y <= MaxRookieYear && SuffixCounts(players)[y - 1] > 0
  {
    CohortsArePrefix(players);
    var s := SuffixCounts(players);
    forall y | 1 <= y <= MaxRookieYear && s[y - 1] > 0
      ensures HasCohort(Cohorts(players), y)
    {
      CohortLookup(players, CohortCount(y, s[y - 1]));
    }
    forall c | c in Cohorts(players)
      ensures 1 <= c.rookieYear <= MaxRookieYear && s[c.rookieYear - 1] > 0
    {
      CohortLookup(players, c);
    }
  }

  /** The inner join at line 74 keeps exactly the grouped rows whose rookie year has a
      positive cohort count, in order, each once. */
  lemma JoinCountsExact(players: seq<Player>, groups: seq<KeyedTotals>)
    ensures GroupPart(JoinCounts(groups, Cohorts(players))) == PositiveGroups(groups, SuffixCounts(players))
  {
    CohortYears(players);
    JoinCountsFrom(players, groups);
  }

  lemma {:induction false} JoinCountsFrom(players: seq<Player>, groups: seq<KeyedTotals>)
    requires var r := Cohorts(players);
      forall i, j :: 0 <= i < j < |r| ==> r[i].rookieYear != r[j].rookieYear
    requires forall y :: HasCohort(Cohorts(players), y) <==>
      1 <= y <= MaxRookieYear && SuffixCounts(players)[y - 1] > 0
    ensures GroupPart(JoinCounts(groups, Cohorts(players))) == PositiveGroups(groups, SuffixCounts(players))
  {
    if groups != [] {
      JoinCountsFrom(players, groups[1..]);
      var t := groups[0];
      var y := t.key.rookieYear;
      assert HasCohort(Cohorts(players), y) <==> 1 <= y <= MaxRookieYear && SuffixCounts(players)[y - 1] > 0;
      JoinCountsStep(groups, Cohorts(players), SuffixCounts(players));
    }
  }

  /** One step of the join: the first grouped row's matches, then the rest. */
  lemma JoinCountsStep(groups: seq<KeyedTotals>, cohorts: seq<CohortCount>, counts: seq<int>)
    requires groups != [] && |counts| == MaxRookieYear
    requires forall i, j :: 0 <= i < j < |cohorts| ==> cohorts[i].rookieYear != cohorts[j].rookieYear
    requires var y := groups[0].key.rookieYear;
      HasCohort(cohorts, y) <==> 1 <= y <= MaxRookieYear && counts[y - 1] > 0
    requires GroupPart(JoinCounts(groups[1..], cohorts)) == PositiveGroups(groups[1..], counts)
    ensures GroupPart(JoinCounts(groups, cohorts)) == PositiveGroups(groups, counts)
  {
    CountMatchesAtMostOnce(groups[0], cohorts);
    GroupPartAppend(CountMatches(groups[0], cohorts), JoinCounts(groups[1..], cohorts));
  }

  /** Every group of a positive year is drawn once: the joined rows are the positive
      groups of `GroupSums`, whose keys are distinct. */
  lemma AvgGroupsOnce(players: seq<Player>, stats: seq<StatRow>)
    ensures var g := GroupPart(JoinCounts(GroupSums(stats), Cohorts(players)));
      && g == PositiveGroups(GroupSums(stats), SuffixCounts(players))
      && DistinctKeys(g)
  {
    JoinCountsExact(players, GroupSums(stats));
    assert DistinctKeys(GroupSums(stats));
    PositiveGroupsDistinct(GroupSums(stats), SuffixCounts(players));
  }

  /** Against a table of one player, every stat row naming it joins once, with index 0,
      in order. */
  lemma JoinSinglePlayer(stats: seq<StatRow>, p: PlayerLabel)
    requires forall k :: 0 <= k < |stats| ==> stats[k].playerName == p.name
    ensures var j := JoinIndex(stats, IndexPlayers([p]));
      |j| == |stats| && forall k :: 0 <= k < |stats| ==> j[k] == Joined(stats[k], 0)
  {
    var q := IndexedPlayer(p, 0);
    assert IndexPlayers([p]) == [q];
    JoinOnlyAll(stats, q);
  }

  lemma JoinOnlyAll(stats: seq<StatRow>, q: IndexedPlayer)
    requires forall k :: 0 <= k < |stats| ==> stats[k].playerName == q.player.name
    ensures var j := JoinIndex(stats, [q]);
      |j| == |stats| && forall k :: 0 <= k < |stats| ==> j[k] == Joined(stats[k], q.index)
  {
    assert stats[0..] == stats;
    JoinOnlyPlayer(stats, q, 0);
  }

  lemma {:induction false} JoinOnlyPlayer(stats: seq<StatRow>, q: IndexedPlayer, lo: nat)
    requires lo <= |stats|
    requires forall k :: 0 <= k < |stats| ==> stats[k].playerName == q.player.name
    ensures var j := JoinIndex(stats[lo..], [q]);
      |j| == |stats| - lo && forall k :: 0 <= k < |j| ==> j[k] == Joined(stats[lo + k], q.index)
    decreases |stats| - lo
  {
    if lo == |stats| {
      assert stats[lo..] == [];
    } else {
      JoinOnlyPlayer(stats, q, lo + 1);
      JoinOnlyStep(stats, q, lo);
    }
  }

  lemma JoinOnlyStep(stats: seq<StatRow>, q: IndexedPlayer, lo: nat)
    requires lo < |stats| && stats[lo].playerName == q.player.name
    requires var j := JoinIndex(stats[lo + 1..], [q]);
      |j| == |stats| - lo - 1 && forall k :: 0 <= k < |j| ==> j[k] == Joined(stats[lo + 1 + k], q.index)
    ensures var j := JoinIndex(stats[lo..], [q]);
      |j| == |stats| - lo && forall k :: 0 <= k < |j| ==> j[k] == Joined(stats[lo + k], q.index)
  {
    MatchOnlyPlayer(stats[lo], q);
    assert stats[lo..][1..] == stats[lo + 1..];
    assert JoinIndex(stats[lo..], [q]) == [Joined(stats[lo], q.index)] + JoinIndex(stats[lo + 1..], [q]);
  }

  lemma MatchOnlyPlayer(s: StatRow, q: IndexedPlayer)
    requires s.playerName == q.player.name
    ensures Matches(s, [q]) == [Joined(s, q.index)]
  {
    assert [q][1..] == [];
  }

  /** A marker of the average chart: the pseudo-player has index 0, so its league-`l`
      row sits at height `l`; the area is the minutes per active player. */
  function AvgPoint(a: AggRow): Point
    requires a.playerCount > 0
  {
    Point(a.key.rookieYear, a.key.leagueId, a.totals.minutes / a.playerCount as real, a.key.league)
  }

  /** Line 82 on the averaged rows: each row attributed to the pseudo-player. */
  function AsAvgStats(averaged: seq<AggRow>): (d: seq<StatRow>)
    ensures |d| == |averaged|
  {
    seq(|averaged|, k requires 0 <= k < |averaged| =>
      var a := averaged[k];
      StatRow(AvgName, a.key.rookieYear, a.key.leagueId, a.key.league,
              a.totals.minutes, a.totals.apps, a.totals.goals))
  }

  lemma AvgChartPoints(agg: seq<AggRow>, averaged: seq<AggRow>)
    requires |averaged| == |agg|
    requires forall k :: 0 <= k < |agg| ==> agg[k].playerCount > 0
    requires forall k :: 0 <= k < |agg| ==>
      averaged[k].key == agg[k].key
      && averaged[k].totals.Get(Minutes) == agg[k].totals.Get(Minutes) / agg[k].playerCount as real
    ensures var pts := Points(JoinIndex(AsAvgStats(averaged), IndexPlayers([PlayerLabel(AvgName, AvgName)])));
      |pts| == |agg| && forall k :: 0 <= k < |agg| ==> pts[k] == AvgPoint(agg[k])
  {
    var dStats := AsAvgStats(averaged);
    JoinSinglePlayer(dStats, PlayerLabel(AvgName, AvgName));
  }

  /** Builds the average chart. On success its layout is that of the single pseudo-player
      (`AvgLayout`), and it has one marker per cohort-year-league group of a positive year
      (`AvgGroupsOnce`): at height `league_id`, with the group's minutes per active player
      of its rookie year as the area. */
  method ScatterPlotAvgPlayTime(players: seq<Player>, stats: seq<StatRow>, render: nat -> Attempt)
    returns (r: Result<ScatterFigure>, calls: nat, logged: bool)
    ensures 1 <= calls <= MaxAttempts
    ensures r.Ok? <==> exists k :: 0 <= k < MaxAttempts && render(k).Rendered?
    ensures r.Err? ==> render(1) == Raised(r.error) && render(0).Raised?
    ensures logged <==> r.Err?
    ensures calls == 1 <==> render(0).Rendered?
    ensures r.Ok? ==>
      var agg := JoinCounts(GroupSums(stats), Cohorts(players));
      var pts := r.value.points;
      && |pts| == |agg|
      && GroupPart(agg) == PositiveGroups(GroupSums(stats), SuffixCounts(players))
      && (forall k :: 0 <= k < |agg| ==> agg[k].playerCount > 0 && pts[k] == AvgPoint(agg[k]))
      && r.value.layout == ScatterLayout(IndexPlayers([PlayerLabel(AvgName, AvgName)]))
  {
    var cohorts := Cohorts(players);
    var groups := GroupSums(stats);
    var agg := JoinCounts(groups, cohorts);
    JoinedCountsPositive(players, stats);
    forall k | 0 <= k < |agg| ensures agg[k].playerCount > 0 {
      assert agg[k] in agg;
    }
    var averaged := DivideByCount(agg);
    var dStats := AsAvgStats(averaged);
    var dPlayer := PlayerLabel(AvgName, AvgName);
    r, calls, logged := ScatterPlotPlayTime([dPlayer], dStats, render);
    AvgChartPoints(agg, averaged);
    JoinCountsExact(players, groups);
  }

  /** The layout of the average chart: the single pseudo-player's band and tick. */
  lemma AvgLayout()
    ensures var layout := ScatterLayout(IndexPlayers([PlayerLabel(AvgName, AvgName)]));
      && layout.tickVals == [2]
      && layout.tickText == [AvgName]
      && layout.yRange == (4, 0)
      && layout.xRange == (0.5, 7.5)
      && layout.categoryOrder == ["J1", "J2", "J3"]
      && layout.height == 230
  {
    assert IndexPlayers([PlayerLabel(AvgName, AvgName)]) == [IndexedPlayer(PlayerLabel(AvgName, AvgName), 0)];
  }
}
