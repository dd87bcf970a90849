/**
 * Longest arithmetic subarray after at most one change
 * (q62-contiguous-arthimetic-progression, Solution.java).
 *
 * A stretch of the list is steady when consecutive differences inside it
 * are all equal. The solution measures, for every position, the steady run
 * ending there and the one starting there, and then tries each way one
 * changed element can lengthen a run: extending a run at either end, or
 * replacing a middle element so that the runs on both sides join.
 */
module ArithmeticSubarray {

  /** The difference between `a[t]` and the element before it. */
  function Step(a: seq<int>, t: int): int
    requires 1 <= t < |a|
  {
    a[t] - a[t - 1]
  }

  /** `a[j..k]` is an arithmetic progression: all differences inside it are equal. */
  predicate Steady(a: seq<int>, j: int, k: int) {
    0 <= j <= k <= |a| && forall t, u :: j < t < k && j < u < k ==> Step(a, t) == Step(a, u)
  }

  /** `left[i]`: the length of the steady run ending at `i`. */
  function RunEnd(a: seq<int>, i: int): int
    requires 0 <= i < |a|
  {
    if i == 0 then 1
    else if i == 1 then 2
    else if Step(a, i) == Step(a, i - 1) then RunEnd(a, i - 1) + 1
    else 2
  }

  /** `right[i]`: the length of the steady run starting at `i`. */
  function RunStart(a: seq<int>, i: int): int
    requires 0 <= i < |a|
    decreases |a| - i
  {
    if i == |a| - 1 then 1
    else if i == |a| - 2 then 2
    else if Step(a, i + 1) == Step(a, i + 2) then RunStart(a, i + 1) + 1
    else 2
  }

  /** A stretch inside a steady stretch is steady. */
  lemma SteadyInside(a: seq<int>, j: int, k: int, j': int, k': int)
    requires Steady(a, j, k) && j <= j' <= k' <= k
    ensures Steady(a, j', k')
  {
  }

  /** A steady stretch grows by one on the right when the new difference matches the last one. */
  lemma SteadySnoc(a: seq<int>, j: int, k: int)
    requires Steady(a, j, k) && k < |a|
    requires k - j >= 2 ==> Step(a, k) == Step(a, k - 1)
    ensures Steady(a, j, k + 1)
  {
  }

  /** A steady stretch grows by one on the left when the new difference matches the first one. */
  lemma SteadyCons(a: seq<int>, j: int, k: int)
    requires Steady(a, j, k) && j >= 1
    requires k - j >= 2 ==> Step(a, j) == Step(a, j + 1)
    ensures Steady(a, j - 1, k)
  {
  }

  /** `left[i]` is the length of a steady stretch ending at `i`: between 1 and i + 1, and at least 2 past the start. */
  lemma {:induction false} RunEndSteady(a: seq<int>, i: int)
    requires 0 <= i < |a|
    ensures 1 <= RunEnd(a, i) <= i + 1 && (i >= 1 ==> RunEnd(a, i) >= 2)
    ensures Steady(a, i + 1 - RunEnd(a, i), i + 1)
    decreases i
  {
    if i >= 2 {
      RunEndSteady(a, i - 1);
      if Step(a, i) == Step(a, i - 1) {
        SteadySnoc(a, i - RunEnd(a, i - 1), i);
      }
    }
  }

  /** No steady stretch ending at `i` is longer than `left[i]`. */
  lemma {:induction false} RunEndLongest(a: seq<int>, i: int, j: int)
    requires 0 <= j <= i < |a| && Steady(a, j, i + 1)
    ensures i + 1 - j <= RunEnd(a, i)
    decreases i
  {
    RunEndSteady(a, i);
    if i >= 2 && j <= i - 2 {
      assert Step(a, i) == Step(a, i - 1);
      SteadyInside(a, j, i + 1, j, i);
      RunEndLongest(a, i - 1, j);
    }
  }

  /** `right[i]` is between 1 and the number of elements from `i` on, and at least 2 before the last one. */
  lemma {:induction false} RunStartBounds(a: seq<int>, i: int)
    requires 0 <= i < |a|
    ensures 1 <= RunStart(a, i) <= |a| - i && (i <= |a| - 2 ==> RunStart(a, i) >= 2)
    decreases |a| - i
  {
    if i <= |a| - 3 {
      RunStartBounds(a, i + 1);
    }
  }

  /** `right[i]` is the length of a steady stretch starting at `i`. */
  lemma {:induction false} RunStartSteady(a: seq<int>, i: int)
    requires 0 <= i < |a|
    ensures Steady(a, i, i + RunStart(a, i))
    decreases |a| - i
  {
    RunStartBounds(a, i);
    if i <= |a| - 3 && Step(a, i + 1) == Step(a, i + 2) {
      RunStartSteady(a, i + 1);
      RunStartBounds(a, i + 1);
      SteadyCons(a, i + 1, i + 1 + RunStart(a, i + 1));
    }
  }

  /** No steady stretch starting at `i` is longer than `right[i]`. */
  lemma {:induction false} RunStartLongest(a: seq<int>, i: int, k: int)
    requires 0 <= i < k <= |a| && Steady(a, i, k)
    ensures k - i <= RunStart(a, i)
    decreases |a| - i
  {
    RunStartBounds(a, i);
    if i <= |a| - 3 && k >= i + 3 {
      assert Step(a, i + 2) == Step(a, i + 1);
      SteadyInside(a, i, k, i + 1, k);
      RunStartLongest(a, i + 1, k);
    }
  }

  /**
   * Replacing `a[i]` to join the runs on both sides: only when `a[i + 1] - a[i - 1]`
   * is even, so that a whole common difference `d` fits; each side counts
   * in full when its own difference next to `i` is `d`, and as one element otherwise.
   */
  function Merge(a: seq<int>, i: int): int
    requires 1 <= i <= |a| - 2
  {
    var num := a[i + 1] - a[i - 1];
    if num % 2 != 0 then 0
    else
      var d := num / 2;
      var l := if i >= 2 && Step(a, i - 1) == d then RunEnd(a, i - 1) else 1;
      var r := if i + 2 < |a| && Step(a, i + 2) == d then RunStart(a, i + 1) else 1;
      l + 1 + r
  }

  /** Changing elements outside a stretch keeps it steady. */
  lemma SteadyFrame(a: seq<int>, b: seq<int>, j: int, k: int)
    requires Steady(a, j, k) && |b| == |a|
    requires forall t :: j <= t < k ==> b[t] == a[t]
    ensures Steady(b, j, k)
  {
    forall t | j < t < k ensures Step(b, t) == Step(a, t) {
    }
  }

  /** Two steady stretches sharing at least two elements make one. */
  lemma SteadyJoin(a: seq<int>, j: int, m: int, k: int)
    requires Steady(a, j, m + 2) && Steady(a, m, k) && j <= m && m + 2 <= k
    ensures Steady(a, j, k)
  {
    forall t | j < t < k ensures Step(a, t) == Step(a, m + 1) {
    }
  }

  /** `b` is `a` with at most one element replaced. */
  predicate OneChange(a: seq<int>, b: seq<int>) {
    |b| == |a| && forall t, u :: 0 <= t < u < |a| && b[t] != a[t] ==> b[u] == a[u]
  }

  /** Some single replacement leaves a steady stretch of `len` elements. */
  ghost predicate Achievable(a: seq<int>, len: int) {
    exists b, j, k :: OneChange(a, b) && k - j == len && Steady(b, j, k)
  }

  lemma Achieved(a: seq<int>, p: int, c: int, j: int, len: int)
    requires 0 <= p < |a| && Steady(a[p := c], j, j + len)
    ensures Achievable(a, len)
  {
    assert OneChange(a, a[p := c]);
    assert (j + len) - j == len;
  }

  /** A run as it stands needs no change (replace any element by itself). */
  lemma RunAsItStands(a: seq<int>, i: int)
    requires 0 <= i < |a|
    ensures Achievable(a, RunEnd(a, i))
  {
    RunEndSteady(a, i);
    assert a[i := a[i]] == a;
    Achieved(a, i, a[i], i + 1 - RunEnd(a, i), RunEnd(a, i));
  }

  /** Replacing `a[i]` by the next term of the run ending at `i - 1` extends that run by one. */
  lemma ExtendRight(a: seq<int>, i: int)
    requires 1 <= i < |a|
    ensures Achievable(a, RunEnd(a, i - 1) + 1)
  {
    var len := RunEnd(a, i - 1);
    RunEndSteady(a, i - 1);
    var c := if i >= 2 then a[i - 1] + (a[i - 1] - a[i - 2]) else a[i];
    var b := a[i := c];
    SteadyFrame(a, b, i - len, i);
    SteadySnoc(b, i - len, i);
    Achieved(a, i, c, i - len, len + 1);
  }

  /** Replacing `a[i]` by the term before the run starting at `i + 1` extends that run by one. */
  lemma ExtendLeft(a: seq<int>, i: int)
    requires 0 <= i < |a| - 1
    ensures Achievable(a, RunStart(a, i + 1) + 1)
  {
    var len := RunStart(a, i + 1);
    RunStartBounds(a, i + 1);
    RunStartSteady(a, i + 1);
    var c := if i + 2 < |a| then a[i + 1] - (a[i + 2] - a[i + 1]) else a[i];
    var b := a[i := c];
    SteadyFrame(a, b, i + 1, i + 1 + len);
    SteadyCons(b, i + 1, i + 1 + len);
    Achieved(a, i, c, i, len + 1);
  }

  /** `b` is `a` with `a[i]` replaced by `c`, element by element. */
  predicate ReplacedAt(a: seq<int>, b: seq<int>, i: int, c: int) {
    0 <= i < |a| == |b| && b[i] == c && forall t :: 0 <= t < |a| && t != i ==> b[t] == a[t]
  }

  /** The left side of the join: its run, the midpoint and `a[i + 1]` are steady once `a[i]` is the midpoint. */
  lemma JoinLeft(a: seq<int>, b: seq<int>, i: int, d: int, l: int)
    requires 1 <= i <= |a| - 2 && a[i + 1] - a[i - 1] == 2 * d
    requires ReplacedAt(a, b, i, a[i - 1] + d)
    requires l == if i >= 2 && Step(a, i - 1) == d then RunEnd(a, i - 1) else 1
    ensures Steady(b, i - l, i + 2)
  {
    RunEndSteady(a, i - 1);
    if l == 1 {
      assert Steady(a, i - 1, i);
    }
    SteadyFrame(a, b, i - l, i);
    assert Step(b, i) == d && Step(b, i + 1) == d;
    if l >= 2 {
      assert Step(b, i - 1) == d;
    }
    SteadySnoc(b, i - l, i);
    SteadySnoc(b, i - l, i + 1);
  }

  /** The right side of the join: the midpoint followed by the run starting at `i + 1` is steady. */
  lemma JoinRight(a: seq<int>, b: seq<int>, i: int, d: int, r: int)
    requires 1 <= i <= |a| - 2 && a[i + 1] - a[i - 1] == 2 * d
    requires ReplacedAt(a, b, i, a[i - 1] + d)
    requires r == if i + 2 < |a| && Step(a, i + 2) == d then RunStart(a, i + 1) else 1
    ensures 1 <= r && i + 1 + r <= |a|
    ensures Steady(b, i, i + 1 + r)
  {
    RunStartBounds(a, i + 1);
    RunStartSteady(a, i + 1);
    if r == 1 {
      assert Steady(a, i + 1, i + 2);
    }
    SteadyFrame(a, b, i + 1, i + 1 + r);
    assert Step(b, i + 1) == d;
    if r >= 2 {
      assert Step(b, i + 2) == d;
    }
    SteadyCons(b, i + 1, i + 1 + r);
  }

  /**
   * The joining candidate is real: with `a[i]` replaced by the midpoint of
   * its neighbours, the left part, the new element and the right part form
   * one steady stretch of `Merge(a, i)` elements.
   */
  lemma MergeJoins(a: seq<int>, i: int)
    requires 1 <= i <= |a| - 2
    requires (a[i + 1] - a[i - 1]) % 2 == 0
    ensures Achievable(a, Merge(a, i))
  {
    var d := (a[i + 1] - a[i - 1]) / 2;
    var l := if i >= 2 && Step(a, i - 1) == d then RunEnd(a, i - 1) else 1;
    var r := if i + 2 < |a| && Step(a, i + 2) == d then RunStart(a, i + 1) else 1;
    var b := a[i := a[i - 1] + d];
    assert ReplacedAt(a, b, i, a[i - 1] + d);
    JoinLeft(a, b, i, d, l);
    JoinRight(a, b, i, d, r);
    RunEndSteady(a, i - 1);
    SteadyJoin(b, i - l, i, i + 1 + r);
    Achieved(a, i, a[i - 1] + d, i - l, l + 1 + r);
  }

  function Max(x: int, y: int): int {
    if x >= y then x else y
  }

  /** Every run ending before `hi` is at least one shorter than `ans`. */
  predicate EndsBelow(a: seq<int>, ans: int, hi: int) {
    forall s :: 0 <= s < hi && s < |a| ==> RunEnd(a, s) + 1 <= ans
  }

  /** Every run starting in [lo, hi) is at least one shorter than `ans`. */
  predicate StartsBelow(a: seq<int>, ans: int, lo: int, hi: int) {
    forall s :: lo <= s < hi && 0 <= s < |a| ==> RunStart(a, s) + 1 <= ans
  }

  /**
   * `getLongestArithmeticSubarray`: a list of at most two values is itself
   * the answer. Otherwise the answer is at most the length of the list and at
   * least one more than the length of any steady stretch, up to that cap;
   * and it is never more than one replacement can achieve.
   */
  method LongestArithmetic(a: seq<int>) returns (ans: int)
    ensures |a| <= 2 ==> ans == |a|
    ensures ans <= |a|
    ensures |a| > 2 ==> forall j, k :: 0 <= j < k <= |a| && Steady(a, j, k) ==> Min(|a|, k - j + 1) <= ans
    ensures |a| >= 1 ==> Achievable(a, ans)
  {
    var n := |a|;
    if n <= 2 {
      if n >= 1 {
        RunAsItStands(a, n - 1);
      }
      return n;
    }
    ans := LongestRun(a);
    ExtendLeft(a, 0);
    BetterOf(a, ans, RunStart(a, 1) + 1);
    ans := Max(ans, RunStart(a, 1) + 1);
    ExtendRight(a, n - 1);
    BetterOf(a, ans, RunEnd(a, n - 2) + 1);
    ans := Max(ans, RunEnd(a, n - 2) + 1);
    ans := TryChanges(a, ans);
    AllRunsCovered(a, ans);
    Shorter(a, ans, Min(ans, n));
    ans := Min(ans, n);
  }

  /** The first pass: the longest run with no change. */
  method LongestRun(a: seq<int>) returns (best: int)
    requires |a| >= 1
    ensures best >= 1 && forall s :: 0 <= s < |a| ==> RunEnd(a, s) <= best
    ensures Achievable(a, best)
  {
    best := 1;
    RunAsItStands(a, 0);
    var t := 0;
    while t < |a|
      invariant 0 <= t <= |a|
      invariant best >= 1 && forall s :: 0 <= s < t ==> RunEnd(a, s) <= best
      invariant Achievable(a, best)
    {
      RunAsItStands(a, t);
      BetterOf(a, best, RunEnd(a, t));
      best := Max(best, RunEnd(a, t));
      t := t + 1;
    }
  }

  /** The loop over the middle elements: extending the run on either side, or joining both. */
  method TryChanges(a: seq<int>, start: int) returns (ans: int)
    requires |a| > 2 && start >= 1 && Achievable(a, start)
    ensures start <= ans && Achievable(a, ans)
    ensures EndsBelow(a, ans, |a| - 2) && StartsBelow(a, ans, 2, |a|)
  {
    var n := |a|;
    ans := start;
    var i := 1;
    while i <= n - 2
      invariant 1 <= i <= n - 1
      invariant start <= ans && Achievable(a, ans)
      invariant EndsBelow(a, ans, i - 1) && StartsBelow(a, ans, 2, i + 1)
    {
      var next := TryAt(a, i, ans);
      EndsBelowGrow(a, ans, next, i - 1);
      StartsBelowGrow(a, ans, next, 2, i + 1);
      ans := next;
      i := i + 1;
    }
  }

  /** One middle element: the three candidates for replacing `a[i]`. */
  method TryAt(a: seq<int>, i: int, ans: int) returns (next: int)
    requires 1 <= i <= |a| - 2 && ans >= 1 && Achievable(a, ans)
    ensures ans <= next && Achievable(a, next)
    ensures RunEnd(a, i - 1) + 1 <= next && RunStart(a, i + 1) + 1 <= next
  {
    ExtendRight(a, i);
    BetterOf(a, ans, RunEnd(a, i - 1) + 1);
    next := Max(ans, RunEnd(a, i - 1) + 1);
    ExtendLeft(a, i);
    BetterOf(a, next, RunStart(a, i + 1) + 1);
    next := Max(next, RunStart(a, i + 1) + 1);
    if (a[i + 1] - a[i - 1]) % 2 == 0 {
      MergeJoins(a, i);
      BetterOf(a, next, Merge(a, i));
    }
    next := Max(next, Merge(a, i));
  }

  lemma EndsBelowGrow(a: seq<int>, ans: int, next: int, hi: int)
    requires EndsBelow(a, ans, hi) && ans <= next && 0 <= hi < |a| && RunEnd(a, hi) + 1 <= next
    ensures EndsBelow(a, next, hi + 1)
  {
  }

  lemma StartsBelowGrow(a: seq<int>, ans: int, next: int, lo: int, hi: int)
    requires StartsBelow(a, ans, lo, hi) && ans <= next && 0 <= hi < |a| && RunStart(a, hi) + 1 <= next
    ensures StartsBelow(a, next, lo, hi + 1)
  {
  }

  lemma BetterOf(a: seq<int>, x: int, y: int)
    requires Achievable(a, x) && Achievable(a, y)
    ensures Achievable(a, Max(x, y))
  {
  }

  /** A steady stretch holds shorter ones, so a shorter length is achievable too. */
  lemma Shorter(a: seq<int>, len: int, len': int)
    requires Achievable(a, len) && 0 <= len' <= len
    ensures Achievable(a, len')
  {
    var b, j, k :| OneChange(a, b) && k - j == len && Steady(b, j, k);
    SteadyInside(b, j, k, j, j + len');
    assert (j + len') - j == len';
  }

  function Min(x: int, y: int): int {
    if x <= y then x else y
  }

  /** Every steady stretch against the candidates the search has taken. */
  lemma AllRunsCovered(a: seq<int>, ans: int)
    requires |a| > 2
    requires forall s :: 0 <= s < |a| ==> RunEnd(a, s) <= ans
    requires RunStart(a, 1) + 1 <= ans && RunEnd(a, |a| - 2) + 1 <= ans
    requires EndsBelow(a, ans, |a| - 2) && StartsBelow(a, ans, 2, |a|)
    ensures forall j, k :: 0 <= j < k <= |a| && Steady(a, j, k) ==> Min(|a|, k - j + 1) <= Min(ans, |a|)
  {
    forall j, k | 0 <= j < k <= |a| && Steady(a, j, k) ensures Min(|a|, k - j + 1) <= Min(ans, |a|) {
      RunCovered(a, j, k, ans);
    }
  }

  /** One steady stretch against the candidates the search has taken. */
  lemma RunCovered(a: seq<int>, j: int, k: int, ans: int)
    requires |a| > 2 && 0 <= j < k <= |a| && Steady(a, j, k)
    requires forall s :: 0 <= s < |a| ==> RunEnd(a, s) <= ans
    requires RunStart(a, 1) + 1 <= ans && RunEnd(a, |a| - 2) + 1 <= ans
    requires EndsBelow(a, ans, |a| - 2) && StartsBelow(a, ans, 2, |a|)
    ensures Min(|a|, k - j + 1) <= Min(ans, |a|)
  {
    var n := |a|;
    if k < n {
      RunEndLongest(a, k - 1, j);
    } else if j == 0 {
      RunEndLongest(a, n - 1, 0);
    } else {
      RunStartLongest(a, j, k);
    }
  }
}
