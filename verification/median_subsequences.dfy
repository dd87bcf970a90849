/**
 * The largest and smallest median over subsequences of length k
 * (q50-median-subsequences, Solution.java).
 *
 * The median of k values is the lower middle of them in ascending order,
 * the element at index (k - 1) / 2. The solution sorts a copy of the values
 * and reads both answers off the sorted copy: the smallest median is the
 * median of the k smallest values, the largest that of the k largest.
 */
module MedianSubsequences {
  import opened Common
  import opened Ordering

  /** `IllegalArgumentException`: k outside [1, n]. */
  datatype MedianError = KOutOfRange

  /** The median of values already in ascending order: the lower middle one. */
  function Median(t: seq<int>): int
    requires t != []
  {
    t[(|t| - 1) / 2]
  }

  /**
   * `getMaxMinMedian`: k outside [1, n] is an error; otherwise, with `a` the
   * values sorted ascending, the answer is [a[n - (k / 2 + 1)], a[(k - 1) / 2]]
   * (largest median first). The input is only read, never reordered.
   */
  function MaxMinMedian(values: seq<int>, k: int): (r: Result<(int, int), MedianError>)
    ensures r.Err? <==> k < 1 || k > |values|
    ensures r.Ok? ==>
              var a := SortInts(values);
              r.value.0 == a[|values| - (k / 2 + 1)] && r.value.1 == a[(k - 1) / 2]
  {
    if k < 1 || k > |values| then Err(KOutOfRange)
    else
      var a := SortInts(values);
      var minMedian := a[(k - 1) / 2];
      var maxMedian := a[|values| - (k / 2 + 1)];
      Ok((maxMedian, minMedian))
  }

  /**
   * The smallest median is that of the k smallest values and the largest
   * median that of the k largest values, both read from the sorted copy.
   */
  lemma MediansOfExtremes(values: seq<int>, k: int)
    requires 1 <= k <= |values|
    ensures MaxMinMedian(values, k) == Ok((Median(SortInts(values)[|values| - k..]), Median(SortInts(values)[..k])))
  {
    ExtremeMedians(SortInts(values), k, |values|);
    MaxMinMedianOk(values, k);
  }

  lemma MaxMinMedianOk(values: seq<int>, k: int)
    requires 1 <= k <= |values|
    ensures MaxMinMedian(values, k) == Ok((SortInts(values)[|values| - (k / 2 + 1)], SortInts(values)[(k - 1) / 2]))
  {
  }

  /** Both answers are input values, and the largest median is never below the smallest. */
  lemma MediansAreValues(values: seq<int>, k: int)
    requires 1 <= k <= |values|
    ensures MaxMinMedian(values, k).value.1 <= MaxMinMedian(values, k).value.0
    ensures MaxMinMedian(values, k).value.0 in multiset(values) && MaxMinMedian(values, k).value.1 in multiset(values)
  {
    ExtremeMedians(SortInts(values), k, |values|);
    MaxMinMedianOk(values, k);
    SortIntsPermutes(values);
    ElementInMultiset(SortInts(values), (k - 1) / 2);
    ElementInMultiset(SortInts(values), |values| - (k / 2 + 1));
  }

  lemma ElementInMultiset(a: seq<int>, i: int)
    requires 0 <= i < |a|
    ensures a[i] in multiset(a)
  {
  }

  /** In an ascending sequence, the medians of the first and of the last k elements, in that order. */
  lemma ExtremeMedians(a: seq<int>, k: int, n: int)
    requires Ascending(a) && n == |a| && 1 <= k <= n
    ensures Median(a[..k]) == a[(k - 1) / 2]
    ensures Median(a[n - k..]) == a[n - (k / 2 + 1)]
    ensures a[(k - 1) / 2] <= a[n - (k / 2 + 1)]
  {
    HalvesOf(k);
    LastMedian(a, k, (k - 1) / 2, n - (k / 2 + 1));
  }

  lemma LastMedian(a: seq<int>, k: int, lo: int, hi: int)
    requires Ascending(a) && 1 <= k <= |a|
    requires lo == (k - 1) / 2 && 0 <= lo && |a| - k + lo == hi
    ensures Median(a[|a| - k..]) == a[hi]
    ensures lo <= hi < |a| && a[lo] <= a[hi]
  {
    assert a[|a| - k..][lo] == a[hi];
  }

  /** The lower middle index and the upper half of k positions add up to k. */
  lemma HalvesOf(k: int)
    requires k >= 1
    ensures (k - 1) / 2 + k / 2 + 1 == k
    ensures 0 <= (k - 1) / 2 < k
  {
    if k % 2 == 0 {
      assert k == 2 * (k / 2);
      assert (k - 1) / 2 == k / 2 - 1;
    } else {
      assert k == 2 * (k / 2) + 1;
      assert (k - 1) / 2 == k / 2;
    }
  }
}
