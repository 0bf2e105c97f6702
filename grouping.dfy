/** Group-by over a key column: the distinct keys in order of first appearance and
    the size of each group. */
module Grouping {

  /** Number of positions of `ks` holding `k`. */
  function Occurrences<K(==)>(ks: seq<K>, k: K): (n: nat)
    ensures n <= |ks|
    ensures n > 0 <==> k in ks
  {
    if ks == [] then 0
    else
      assert ks == ks[..|ks| - 1] + [ks[|ks| - 1]];
      Occurrences(ks[..|ks| - 1], k) + (if ks[|ks| - 1] == k then 1 else 0)
  }

  lemma OccurrencesAppend<K>(ks: seq<K>, x: K, k: K)
    ensures Occurrences(ks + [x], k) == Occurrences(ks, k) + (if x == k then 1 else 0)
  {
    assert (ks + [x])[..|ks|] == ks;
  }

  ghost predicate NoDuplicates<K>(d: seq<K>) {
    forall i, j :: 0 <= i < j < |d| ==> d[i] != d[j]
  }

  /** A key of a duplicate-free sequence occurs exactly once. */
  lemma {:induction false} OccurrencesOfDistinct<K>(d: seq<K>, k: K)
    requires NoDuplicates(d) && k in d
    ensures Occurrences(d, k) == 1
  {
    var p, x := d[..|d| - 1], d[|d| - 1];
    assert d == p + [x];
    if x == k {
      assert k !in p by {
        forall i | 0 <= i < |p| ensures p[i] != k { assert d[i] != d[|d| - 1]; }
      }
    } else {
      OccurrencesOfDistinct(p, k);
    }
  }

  /** The distinct keys of `ks`, each at the place it first appears. */
  function Distinct<K(==)>(ks: seq<K>): (d: seq<K>)
    ensures forall i :: 0 <= i < |d| ==> d[i] in ks
    ensures forall i :: 0 <= i < |ks| ==> ks[i] in d
    ensures NoDuplicates(d)
  {
    if ks == [] then []
    else
      assert ks == ks[..|ks| - 1] + [ks[|ks| - 1]];
      var d := Distinct(ks[..|ks| - 1]);
      if ks[|ks| - 1] in d then d else d + [ks[|ks| - 1]]
  }

  datatype Group<K> = Group(key: K, size: nat)

  /** One group per key of `d`, sized by its occurrences in `ks`. */
  function Tally<K(==)>(d: seq<K>, ks: seq<K>): (g: seq<Group<K>>)
    ensures |g| == |d|
    ensures forall i :: 0 <= i < |d| ==> g[i] == Group(d[i], Occurrences(ks, d[i]))
  {
    if d == [] then []
    else Tally(d[..|d| - 1], ks) + [Group(d[|d| - 1], Occurrences(ks, d[|d| - 1]))]
  }

  /** `groupby(key).size()`: one group per distinct key, in first-appearance order. */
  function GroupSizes<K(==)>(ks: seq<K>): (g: seq<Group<K>>)
    ensures forall i :: 0 <= i < |g| ==> g[i].key in ks
    ensures forall j :: 0 <= j < |ks| ==> HasGroup(g, ks[j])
    ensures forall i, j :: 0 <= i < j < |g| ==> g[i].key != g[j].key
    ensures forall i :: 0 <= i < |g| ==> 0 < g[i].size == Occurrences(ks, g[i].key)
  {
    TallyOfDistinct(ks);
    Tally(Distinct(ks), ks)
  }

  lemma TallyOfDistinct<K>(ks: seq<K>)
    ensures var g := Tally(Distinct(ks), ks);
      && (forall i :: 0 <= i < |g| ==> g[i].key in ks)
      && (forall j :: 0 <= j < |ks| ==> HasGroup(g, ks[j]))
      && (forall i, j :: 0 <= i < j < |g| ==> g[i].key != g[j].key)
      && (forall i :: 0 <= i < |g| ==> 0 < g[i].size == Occurrences(ks, g[i].key))
  {
    TallySizes(Distinct(ks), ks);
    TallyCovers(ks);
  }

  /** Tallying keys of `ks` gives every group a positive size; distinct keys give
      distinct groups. */
  lemma TallySizes<K>(d: seq<K>, ks: seq<K>)
    requires forall i :: 0 <= i < |d| ==> d[i] in ks
    requires NoDuplicates(d)
    ensures var g := Tally(d, ks);
      && (forall i :: 0 <= i < |g| ==> g[i].key in ks && 0 < g[i].size == Occurrences(ks, g[i].key))
      && (forall i, j :: 0 <= i < j < |g| ==> g[i].key != g[j].key)
  {
    var g := Tally(d, ks);
    forall i | 0 <= i < |g| ensures g[i].key in ks && 0 < g[i].size == Occurrences(ks, g[i].key) {
      assert g[i] == Group(d[i], Occurrences(ks, d[i]));
      assert d[i] in ks;
    }
    forall i, j | 0 <= i < j < |g| ensures g[i].key != g[j].key {
      assert g[i].key == d[i] && g[j].key == d[j];
    }
  }

  /** `g` has a group with key `k`. */
  ghost predicate HasGroup<K>(g: seq<Group<K>>, k: K) {
    exists i :: 0 <= i < |g| && g[i].key == k
  }

  /** Every key of `ks` has a group. */
  lemma TallyCovers<K>(ks: seq<K>)
    ensures forall j :: 0 <= j < |ks| ==> HasGroup(Tally(Distinct(ks), ks), ks[j])
  {
    forall j | 0 <= j < |ks|
      ensures HasGroup(Tally(Distinct(ks), ks), ks[j])
    {
      KeyHasGroup(Distinct(ks), ks, j);
    }
  }

  lemma KeyHasGroup<K>(d: seq<K>, ks: seq<K>, j: nat)
    requires j < |ks| && ks[j] in d
    ensures HasGroup(Tally(d, ks), ks[j])
  {
    var i :| 0 <= i < |d| && d[i] == ks[j];
    assert Tally(d, ks)[i].key == ks[j];
  }

  function TotalSize<K>(g: seq<Group<K>>): nat {
    if g == [] then 0 else TotalSize(g[..|g| - 1]) + g[|g| - 1].size
  }

  lemma TotalSizeAppend<K>(g: seq<Group<K>>, e: Group<K>)
    ensures TotalSize(g + [e]) == TotalSize(g) + e.size
  {
    assert (g + [e])[..|g|] == g;
  }

  /** Adding one key to the counted column adds, to the tallied total, how often that key is in `d`. */
  lemma {:induction false} TallyAppend<K>(d: seq<K>, ks: seq<K>, x: K)
    ensures TotalSize(Tally(d, ks + [x])) == TotalSize(Tally(d, ks)) + Occurrences(d, x)
  {
    if d != [] {
      var p, l := d[..|d| - 1], d[|d| - 1];
      TallyAppend(p, ks, x);
      OccurrencesAppend(ks, x, l);
      TotalSizeAppend(Tally(p, ks + [x]), Group(l, Occurrences(ks + [x], l)));
      TotalSizeAppend(Tally(p, ks), Group(l, Occurrences(ks, l)));
      assert d == p + [l];
      OccurrencesAppend(p, l, x);
    }
  }

  /** The group sizes add up to the number of rows: every row lands in exactly one group. */
  lemma GroupSizesTotal<K>(ks: seq<K>)
    ensures TotalSize(GroupSizes(ks)) == |ks|
  {
    TallyOfDistinctTotal(ks);
  }

  lemma {:induction false} TallyOfDistinctTotal<K>(ks: seq<K>)
    ensures TotalSize(Tally(Distinct(ks), ks)) == |ks|
  {
    if ks != [] {
      var p, x := ks[..|ks| - 1], ks[|ks| - 1];
      assert ks == p + [x];
      var d' := Distinct(p);
      TallyOfDistinctTotal(p);
      TallyAppend(d', p, x);
      if x in d' {
        assert Distinct(ks) == d';
        OccurrencesOfDistinct(d', x);
      } else {
        assert Distinct(ks) == d' + [x];
        NewKeyTotal(d', p, x);
      }
    }
  }

  /** A key seen for the first time adds a group of size one. */
  lemma NewKeyTotal<K>(d: seq<K>, p: seq<K>, x: K)
    requires x !in d && x !in p
    ensures TotalSize(Tally(d + [x], p + [x])) == TotalSize(Tally(d, p + [x])) + 1
    ensures Occurrences(d, x) == 0
  {
    var ks := p + [x];
    TotalSizeAppend(Tally(d, ks), Group(x, Occurrences(ks, x)));
    assert Tally(d + [x], ks) == Tally(d, ks) + [Group(x, Occurrences(ks, x))] by {
      assert (d + [x])[..|d|] == d;
    }
    OccurrencesAppend(p, x, x);
  }

  /** `pd.merge(domain, groups, how='left')` then `fillna(0)`: the size of the group
      with key `k`, or 0 when there is none. */
  function SizeFor<K(==)>(g: seq<Group<K>>, k: K): nat {
    if g == [] then 0
    else if g[0].key == k then g[0].size
    else SizeFor(g[1..], k)
  }

  lemma {:induction false} SizeForPresent<K>(g: seq<Group<K>>, i: nat)
    requires i < |g|
    requires forall a, b :: 0 <= a < b < |g| ==> g[a].key != g[b].key
    ensures SizeFor(g, g[i].key) == g[i].size
  {
    if i > 0 {
      assert g[0].key != g[i].key;
      SizeForPresent(g[1..], i - 1);
    }
  }

  lemma {:induction false} SizeForAbsent<K>(g: seq<Group<K>>, k: K)
    requires forall i :: 0 <= i < |g| ==> g[i].key != k
    ensures SizeFor(g, k) == 0
  {
    if g != [] {
      SizeForAbsent(g[1..], k);
    }
  }

  /** Looking a key up in the group sizes gives its number of occurrences, 0 for an absent key. */
  lemma GroupSizesLookup<K>(ks: seq<K>)
    ensures forall k :: SizeFor(GroupSizes(ks), k) == Occurrences(ks, k)
  {
    forall k ensures SizeFor(GroupSizes(ks), k) == Occurrences(ks, k) {
      GroupSizeOf(ks, k);
    }
  }

  /** `GroupSizesLookup` for one key. */
  lemma GroupSizeOf<K>(ks: seq<K>, k: K)
    ensures SizeFor(GroupSizes(ks), k) == Occurrences(ks, k)
  {
    var g := GroupSizes(ks);
    if i :| 0 <= i < |g| && g[i].key == k {
      SizeForPresent(g, i);
    } else {
      SizeForAbsent(g, k);
    }
  }
}
