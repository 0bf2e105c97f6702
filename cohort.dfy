/** The cohort counts of `do_scatter_plot_avg_play_time`: for each rookie year 1 to 7 the
    number of players still playing in that year, that is, whose current rookie year is
    that year or later. */
module Cohort {
  import opened Records
  import opened Grouping
  import opened Sums

  /** `range(1, 8)`: rookie years run from 1 to 7. */
  const MaxRookieYear: nat := 7

  /** A row of `count_df`. */
  datatype CohortCount = CohortCount(rookieYear: int, playerCount: int)

  /** The `cur_rookie_year` column. */
  function RookieYears(players: seq<Player>): (ys: seq<int>)
    ensures |ys| == |players|
    ensures forall i :: 0 <= i < |ys| ==> ys[i] == players[i].curRookieYear
  {
    seq(|players|, i requires 0 <= i < |players| => players[i].curRookieYear)
  }

  /** Group sizes per `cur_rookie_year`, left-merged onto years 1 to 7 with absent
      years filled with 0: element `k` is the number of players in rookie year `k + 1`. */
  function YearCounts(players: seq<Player>): (c: seq<int>)
    ensures |c| == MaxRookieYear
    ensures forall k :: 0 <= k < |c| ==> c[k] == Occurrences(RookieYears(players), k + 1)
  {
    var ys := RookieYears(players);
    YearSizes(ys);
    MergeOntoYears(GroupSizes(ys))
  }

  /** `pd.merge(count_df, agg_rookie_df, how='left')` with `fillna(0)`: the group size of
      each rookie year 1 to 7, 0 for a year without a group. */
  function MergeOntoYears(g: seq<Group<int>>): (c: seq<int>)
    ensures |c| == MaxRookieYear
    ensures forall k :: 0 <= k < MaxRookieYear ==> c[k] == SizeFor(g, k + 1)
  {
    seq(MaxRookieYear, k requires 0 <= k < MaxRookieYear => SizeFor(g, k + 1) as int)
  }

  lemma YearSizes(ys: seq<int>)
    ensures forall y :: 1 <= y <= MaxRookieYear ==> SizeFor(GroupSizes(ys), y) == Occurrences(ys, y)
  {
    forall y | 1 <= y <= MaxRookieYear ensures SizeFor(GroupSizes(ys), y) == Occurrences(ys, y) {
      GroupSizeOf(ys, y);
    }
  }

  /** `player_count[::-1].cumsum()[::-1]` over the year counts. */
  function SuffixCounts(players: seq<Player>): (s: seq<int>)
    ensures |s| == MaxRookieYear
  {
    SuffixSum(YearCounts(players))
  }

  /** `count_df[count_df['player_count'] > 0]`. */
  function KeepPositive(rows: seq<CohortCount>): (r: seq<CohortCount>)
    ensures |r| <= |rows|
    ensures forall c :: c in r ==> c in rows && c.playerCount > 0
  {
    if rows == [] then []
    else
      var rest := KeepPositive(rows[1..]);
      assert forall c :: c in rest ==> c in rows;
      if rows[0].playerCount > 0 then [rows[0]] + rest else rest
  }

  /** `count_df` before the filter: one row per rookie year 1 to 7. */
  function CohortRows(players: seq<Player>): (rows: seq<CohortCount>)
    ensures |rows| == MaxRookieYear
  {
    var s := SuffixCounts(players);
    seq(MaxRookieYear, k requires 0 <= k < MaxRookieYear => CohortCount(k + 1, s[k]))
  }

  /** Lines 64 to 70: the cohort counts handed to the per-cohort averages. */
  function Cohorts(players: seq<Player>): seq<CohortCount> {
    KeepPositive(CohortRows(players))
  }

  /** Number of elements of `ys` in `[lo, hi]`. */
  function CountBetween(ys: seq<int>, lo: int, hi: int): (n: nat)
    ensures hi < lo ==> n == 0
  {
    if ys == [] then 0
    else CountBetween(ys[..|ys| - 1], lo, hi) + (if lo <= ys[|ys| - 1] <= hi then 1 else 0)
  }

  lemma {:induction false} CountBetweenSplit(ys: seq<int>, lo: int, hi: int)
    requires lo <= hi
    ensures CountBetween(ys, lo, hi) == Occurrences(ys, lo) + CountBetween(ys, lo + 1, hi)
  {
    if ys != [] {
      CountBetweenSplit(ys[..|ys| - 1], lo, hi);
    }
  }

  /** When every element lies in the range, the range count is the length. */
  lemma {:induction false} CountBetweenAll(ys: seq<int>, lo: int, hi: int)
    requires forall i :: 0 <= i < |ys| ==> lo <= ys[i] <= hi
    ensures CountBetween(ys, lo, hi) == |ys|
  {
    if ys != [] {
      CountBetweenAll(ys[..|ys| - 1], lo, hi);
    }
  }

  lemma {:induction false} SuffixSumOfYearCounts(players: seq<Player>, year: int)
    requires 1 <= year <= MaxRookieYear + 1
    ensures Sum(YearCounts(players)[year - 1..]) == CountBetween(RookieYears(players), year, MaxRookieYear)
    decreases MaxRookieYear + 1 - year
  {
    var c := YearCounts(players);
    if year <= MaxRookieYear {
      SuffixSumOfYearCounts(players, year + 1);
      SumFront(c[year - 1..]);
      assert c[year - 1..][1..] == c[year..];
      CountBetweenSplit(RookieYears(players), year, MaxRookieYear);
    } else {
      assert c[year - 1..] == [];
    }
  }

  /** The count of rookie year `year` is the number of players whose current rookie year
      lies in `[year, 7]`; players outside 1 to 7 are counted in no year. */
  lemma SuffixCountIsStillActive(players: seq<Player>, year: int)
    requires 1 <= year <= MaxRookieYear
    ensures SuffixCounts(players)[year - 1] == CountBetween(RookieYears(players), year, MaxRookieYear)
  {
    SuffixSumOfYearCounts(players, year);
  }

  /** Before the suffix sum, the per-year counts add up to the players in years 1 to 7,
      which is every player when all rookie years lie in 1 to 7. */
  lemma YearCountsTotal(players: seq<Player>)
    ensures Sum(YearCounts(players)) == CountBetween(RookieYears(players), 1, MaxRookieYear)
    ensures (forall p :: p in players ==> 1 <= p.curRookieYear <= MaxRookieYear) ==>
      Sum(YearCounts(players)) == |players|
  {
    SuffixSumOfYearCounts(players, 1);
    assert YearCounts(players)[0..] == YearCounts(players);
    var ys := RookieYears(players);
    if forall p :: p in players ==> 1 <= p.curRookieYear <= MaxRookieYear {
      forall i | 0 <= i < |ys| ensures 1 <= ys[i] <= MaxRookieYear {
        assert players[i] in players;
      }
      CountBetweenAll(ys, 1, MaxRookieYear);
    }
  }

  /** Widening the lower end of the range never lowers the count. */
  lemma {:induction false} CountBetweenMonotone(ys: seq<int>, lo: int, lo': int, hi: int)
    requires lo <= lo'
    ensures CountBetween(ys, lo, hi) >= CountBetween(ys, lo', hi)
    decreases lo' - lo
  {
    if lo < lo' && lo <= hi {
      CountBetweenSplit(ys, lo, hi);
      CountBetweenMonotone(ys, lo + 1, lo', hi);
    }
  }

  /** The cohort counts never increase from one rookie year to the next, and are never negative. */
  lemma SuffixCountsNonIncreasing(players: seq<Player>)
    ensures var s := SuffixCounts(players);
      && (forall i, j :: 0 <= i <= j < |s| ==> s[i] >= s[j])
      && (forall i :: 0 <= i < |s| ==> s[i] >= 0)
  {
    var s := SuffixCounts(players);
    forall i | 0 <= i < |s| ensures s[i] == CountBetween(RookieYears(players), i + 1, MaxRookieYear) {
      SuffixCountIsStillActive(players, i + 1);
    }
    forall i, j | 0 <= i <= j < |s| ensures s[i] >= s[j] {
      CountBetweenMonotone(RookieYears(players), i + 1, j + 1, MaxRookieYear);
    }
  }

  lemma {:induction false} KeepPositiveOfZeros(rows: seq<CohortCount>)
    requires forall i :: 0 <= i < |rows| ==> rows[i].playerCount == 0
    ensures KeepPositive(rows) == []
  {
    if rows != [] {
      KeepPositiveOfZeros(rows[1..]);
    }
  }

  /** On non-negative, non-increasing counts the filter drops a trailing run of zeros only. */
  lemma KeepPositiveIsPrefix(rows: seq<CohortCount>)
    requires forall i, j :: 0 <= i <= j < |rows| ==> rows[i].playerCount >= rows[j].playerCount
    requires forall i :: 0 <= i < |rows| ==> rows[i].playerCount >= 0
    ensures var r := KeepPositive(rows);
      && r == rows[..|r|]
      && (forall k :: 0 <= k < |r| ==> rows[k].playerCount > 0)
      && (forall k :: |r| <= k < |rows| ==> rows[k].playerCount == 0)
  {
    KeepPositiveFrom(rows, 0);
    var r := KeepPositive(rows);
    assert rows[0..] == rows;
    assert r == rows[..|r|];
  }

  /** The same, for the rows from `lo` on. */
  lemma {:induction false} KeepPositiveFrom(rows: seq<CohortCount>, lo: nat)
    requires lo <= |rows|
    requires forall i, j :: 0 <= i <= j < |rows| ==> rows[i].playerCount >= rows[j].playerCount
    requires forall i :: 0 <= i < |rows| ==> rows[i].playerCount >= 0
    ensures var r := KeepPositive(rows[lo..]);
      && lo + |r| <= |rows|
      && (forall k :: 0 <= k < |r| ==> r[k] == rows[lo + k])
      && (forall k :: lo + |r| <= k < |rows| ==> rows[k].playerCount == 0)
    decreases |rows| - lo
  {
    if lo == |rows| {
      assert rows[lo..] == [];
    } else if rows[lo].playerCount == 0 {
      ZerosFrom(rows, lo);
    } else {
      KeepPositiveFrom(rows, lo + 1);
      KeepPositiveStep(rows, lo);
    }
  }

  /** Below a zero count of non-increasing, non-negative counts every count is zero, so
      the filter keeps nothing from there on. */
  lemma ZerosFrom(rows: seq<CohortCount>, lo: nat)
    requires lo < |rows| && rows[lo].playerCount == 0
    requires forall i, j :: 0 <= i <= j < |rows| ==> rows[i].playerCount >= rows[j].playerCount
    requires forall i :: 0 <= i < |rows| ==> rows[i].playerCount >= 0
    ensures KeepPositive(rows[lo..]) == []
    ensures forall k :: lo <= k < |rows| ==> rows[k].playerCount == 0
  {
    var t := rows[lo..];
    forall i | 0 <= i < |t| ensures t[i].playerCount == 0 {
      assert rows[lo].playerCount >= rows[lo + i].playerCount;
    }
    KeepPositiveOfZeros(t);
    forall k | lo <= k < |rows| ensures rows[k].playerCount == 0 {
      assert rows[lo].playerCount >= rows[k].playerCount;
    }
  }

  /** A positive row at `lo` is kept in front of what the filter keeps after it. */
  lemma KeepPositiveStep(rows: seq<CohortCount>, lo: nat)
    requires lo < |rows| && rows[lo].playerCount > 0
    requires var r' := KeepPositive(rows[lo + 1..]);
      lo + 1 + |r'| <= |rows| && forall k :: 0 <= k < |r'| ==> r'[k] == rows[lo + 1 + k]
    ensures var r := KeepPositive(rows[lo..]);
      lo + |r| <= |rows| && forall k :: 0 <= k < |r| ==> r[k] == rows[lo + k]
  {
    var r' := KeepPositive(rows[lo + 1..]);
    assert rows[lo..][1..] == rows[lo + 1..];
    assert KeepPositive(rows[lo..]) == [rows[lo]] + r';
  }

  /** The kept cohorts are the rookie years `1..m` for some m, in order, each with its
      positive count; every dropped year has count 0. */
  lemma CohortsArePrefix(players: seq<Player>)
    ensures var r := Cohorts(players);
      var s := SuffixCounts(players);
      && |r| <= MaxRookieYear
      && (forall k :: 0 <= k < |r| ==> r[k] == CohortCount(k + 1, s[k]) && s[k] > 0)
      && (forall k :: |r| <= k < MaxRookieYear ==> s[k] == 0)
  {
    var s := SuffixCounts(players);
    var rows := CohortRows(players);
    assert forall k :: 0 <= k < MaxRookieYear ==> rows[k] == CohortCount(k + 1, s[k]);
    SuffixCountsNonIncreasing(players);
    KeepPositiveIsPrefix(rows);
    var r := KeepPositive(rows);
    assert forall k :: 0 <= k < |r| ==> r[k] == rows[k];
  }

  /** A rookie year has a cohort row exactly when its count is positive, and the row
      carries that count. */
  lemma CohortLookup(players: seq<Player>, c: CohortCount)
    ensures c in Cohorts(players) <==>
      1 <= c.rookieYear <= MaxRookieYear
      && c.playerCount == SuffixCounts(players)[c.rookieYear - 1] > 0
  {
    CohortsArePrefix(players);
    var r := Cohorts(players);
    var s := SuffixCounts(players);
    if 1 <= c.rookieYear <= MaxRookieYear && c.playerCount == s[c.rookieYear - 1] > 0 {
      assert c.rookieYear - 1 < |r|;
      assert r[c.rookieYear - 1] == c;
    }
  }
}
