/** Integer sums, reversal and running (cumulative) sums over sequences. */
module Sums {

  function Sum(s: seq<int>): int {
    if s == [] then 0 else Sum(s[..|s| - 1]) + s[|s| - 1]
  }

  /** The sum also unfolds from the front. */
  lemma {:induction false} SumFront(s: seq<int>)
    requires |s| > 0
    ensures Sum(s) == s[0] + Sum(s[1..])
  {
    if |s| > 1 {
      SumFront(s[..|s| - 1]);
      assert s[..|s| - 1][1..] == s[1..][..|s| - 2];
    }
  }

  function Reverse<T>(s: seq<T>): (r: seq<T>)
    ensures |r| == |s|
    ensures forall k :: 0 <= k < |s| ==> r[k] == s[|s| - 1 - k]
  {
    if s == [] then [] else Reverse(s[1..]) + [s[0]]
  }

  /** `Series.cumsum()`: a running total, element `i` carrying the sum up to and including `s[i]`. */
  function CumSum(s: seq<int>): (r: seq<int>)
    ensures |r| == |s|
    ensures forall i :: 0 <= i < |s| ==> r[i] == Sum(s[..i + 1])
  {
    if s == [] then []
    else
      var p := CumSum(s[..|s| - 1]);
      assert s[..|s|] == s;
      assert forall i :: 0 <= i < |p| ==> p[i] == Sum(s[..i + 1]) by {
        forall i | 0 <= i < |p| ensures p[i] == Sum(s[..i + 1]) { assert s[..|s| - 1][..i + 1] == s[..i + 1]; }
      }
      p + [(if p == [] then 0 else p[|p| - 1]) + s[|s| - 1]]
  }

  /** Summing the first `j` elements of the reversal sums the last `j` of the original. */
  lemma SumReversePrefix(s: seq<int>, j: nat)
    requires j <= |s|
    ensures Sum(Reverse(s)[..j]) == Sum(s[|s| - j..])
  {
    SumMirrorPrefix(s, Reverse(s), j);
  }

  lemma {:induction false} SumMirrorPrefix(s: seq<int>, r: seq<int>, j: nat)
    requires |r| == |s| && j <= |s|
    requires forall k :: 0 <= k < |s| ==> r[k] == s[|s| - 1 - k]
    ensures Sum(r[..j]) == Sum(s[|s| - j..])
  {
    if j == 0 {
      assert r[..0] == [] && s[|s|..] == [];
    } else {
      SumMirrorPrefix(s, r, j - 1);
      SumLast(r, j);
      SumFirst(s, |s| - j);
      assert r[j - 1] == s[|s| - j];
    }
  }

  /** `Sum(t[..j])` adds `t[j - 1]` to `Sum(t[..j - 1])`. */
  lemma SumLast(t: seq<int>, j: nat)
    requires 0 < j <= |t|
    ensures Sum(t[..j]) == Sum(t[..j - 1]) + t[j - 1]
  {
    assert t[..j][..j - 1] == t[..j - 1];
  }

  /** `Sum(t[n..])` is `t[n]` plus `Sum(t[n + 1..])`. */
  lemma SumFirst(t: seq<int>, n: nat)
    requires n < |t|
    ensures Sum(t[n..]) == t[n] + Sum(t[n + 1..])
  {
    SumFront(t[n..]);
    assert t[n..][1..] == t[n + 1..];
  }

  /** `s[::-1].cumsum()[::-1]`: element `k` carries the sum from `s[k]` to the end. */
  function SuffixSum(s: seq<int>): (r: seq<int>)
    ensures |r| == |s|
    ensures forall k :: 0 <= k < |s| ==> r[k] == Sum(s[k..])
  {
    var r := Reverse(CumSum(Reverse(s)));
    assert forall k :: 0 <= k < |s| ==> r[k] == Sum(s[k..]) by {
      forall k | 0 <= k < |s| ensures r[k] == Sum(s[k..]) {
        SumReversePrefix(s, |s| - k);
      }
    }
    r
  }
}
