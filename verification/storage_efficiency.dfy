/**
 * Maximum storage efficiency (q64-maximum-storage-efficiency, Solution.java).
 *
 * Tasks of `s` segments each are split into storage units; the efficiency of
 * a split is the fewest segments in any unit, and at least `m` units are
 * wanted. Aiming for units of at least `x` segments, a task yields `s / x`
 * units, so `x` is feasible when these add up to `m`. The solution binary
 * searches the largest feasible `x` between 1 and the smallest task.
 */
module StorageEfficiency {
  import opened Ordering
  import opened JavaMath

  /** `Integer.MAX_VALUE`, the smallest task of an empty list. */
  const IntMax: int := 0x7fff_ffff

  /** The smallest task, folded with `Math.min` from `Integer.MAX_VALUE`. */
  function MinSeg(segments: seq<int>): (r: int)
    ensures r <= IntMax
    ensures forall i :: 0 <= i < |segments| ==> r <= segments[i]
    ensures r == IntMax || exists i :: 0 <= i < |segments| && r == segments[i]
    decreases |segments|
  {
    if segments == [] then IntMax
    else
      var rest := MinSeg(segments[1..]);
      if segments[0] < rest then segments[0] else rest
  }

  /** The units each task yields when every unit holds at least `x` segments (Java's truncating `/`). */
  function Units(segments: seq<int>, x: int): (r: seq<int>)
    requires x > 0
    ensures |r| == |segments|
    ensures forall i :: 0 <= i < |r| ==> r[i] == Div(segments[i], x)
  {
    seq(|segments|, i requires 0 <= i < |segments| => Div(segments[i], x))
  }

  /**
   * The counting loop with its early stop: from the running total `acc`,
   * whether adding the units one by one reaches `m` after some addition, or
   * the total does with nothing left to add.
   */
  function Reaches(units: seq<int>, m: int, acc: int): bool
    decreases |units|
  {
    if units == [] then acc >= m
    else acc + units[0] >= m || Reaches(units[1..], m, acc + units[0])
  }

  /** Whether `x` segments per unit give at least `m` units, as the inner loop decides. */
  predicate Feasible(segments: seq<int>, x: int, m: int)
    requires x > 0
  {
    Reaches(Units(segments, x), m, 0)
  }

  /** The inner loop: units are added task by task, stopping as soon as they reach `m`. */
  method CountUnits(segments: seq<int>, x: int, m: int) returns (units: int)
    requires x > 0
    ensures units >= m <==> Feasible(segments, x, m)
  {
    ghost var u := Units(segments, x);
    units := 0;
    var k := 0;
    while k < |segments|
      invariant 0 <= k <= |segments|
      invariant Reaches(u, m, 0) == Reaches(u[k..], m, units)
    {
      assert u[k..][1..] == u[k + 1..];
      units := units + Div(segments[k], x);
      if units >= m {
        return;
      }
      k := k + 1;
    }
  }

  /** With no negative units the early stop changes nothing: the loop reaches `m` exactly when the total does. */
  lemma {:induction false} ReachesTotal(units: seq<int>, m: int, acc: int)
    requires forall i :: 0 <= i < |units| ==> units[i] >= 0
    ensures Reaches(units, m, acc) <==> acc + Sum(units) >= m
    decreases |units|
  {
    if units != [] {
      ReachesTotal(units[1..], m, acc + units[0]);
      SumNonNegative(units[1..]);
    }
  }

  /** For tasks of non-negative size, `x` is feasible exactly when the units add up to `m`. */
  lemma FeasibleMeaning(segments: seq<int>, x: int, m: int)
    requires x > 0
    requires forall i :: 0 <= i < |segments| ==> segments[i] >= 0
    ensures Feasible(segments, x, m) <==> Sum(Units(segments, x)) >= m
  {
    var u := Units(segments, x);
    forall i | 0 <= i < |u| ensures u[i] >= 0 {
      DivNonNegative(segments[i], x);
    }
    ReachesTotal(u, m, 0);
  }

  /** Asking for bigger units never yields more of them. */
  lemma FewerLargerUnits(s: int, x: int, y: int)
    requires s >= 0 && 1 <= x <= y
    ensures s / y <= s / x
  {
    var q := s / y;
    assert q * y <= s;
    assert q * x <= q * y;
    DivModUnique(s, x, s / x, s % x);
    if q > s / x {
      MulAtLeast(q - s / x, x);
    }
  }

  /** Feasibility is monotone: for tasks of non-negative size, a feasible `y` makes every smaller `x` feasible. */
  lemma FeasibleMonotone(segments: seq<int>, x: int, y: int, m: int)
    requires 1 <= x <= y
    requires forall i :: 0 <= i < |segments| ==> segments[i] >= 0
    requires Feasible(segments, y, m)
    ensures Feasible(segments, x, m)
  {
    forall i | 0 <= i < |segments| ensures Units(segments, y)[i] <= Units(segments, x)[i] {
      DivNonNegative(segments[i], x);
      DivNonNegative(segments[i], y);
      FewerLargerUnits(segments[i], x, y);
    }
    SumPointwise(Units(segments, y), Units(segments, x));
    FeasibleMeaning(segments, x, m);
    FeasibleMeaning(segments, y, m);
  }

  /** `ans` is feasible and in range, and the next efficiency is out of range or infeasible. */
  predicate LocallyBest(segments: seq<int>, m: int, ans: int) {
    1 <= ans <= MinSeg(segments) && Feasible(segments, ans, m) &&
    (ans == MinSeg(segments) || !Feasible(segments, ans + 1, m))
  }

  /**
   * `getMaximumStorageEfficiency`: the binary search over [1, MinSeg]. The
   * answer is at least 1; anything other than the starting 1 is a locally
   * best efficiency, and so is the answer whenever 1 is feasible and in range.
   */
  method MaxStorageEfficiency(segments: seq<int>, m: int) returns (ans: int)
    ensures 1 <= ans
    ensures ans == 1 || LocallyBest(segments, m, ans)
    ensures 1 <= MinSeg(segments) && Feasible(segments, 1, m) ==> LocallyBest(segments, m, ans)
  {
    var top := MinSeg(segments);
    var lo, hi := 1, top;
    ans := 1;
    while lo <= hi
      invariant 1 <= lo <= hi + 1 || (lo == 1 && hi < 1)
      invariant hi <= top
      invariant (lo == 1 && ans == 1) || (ans == lo - 1 && 1 <= ans <= top && Feasible(segments, ans, m))
      invariant hi == top || (1 <= hi + 1 <= top && !Feasible(segments, hi + 1, m))
      decreases hi - lo
    {
      var mid := lo + (hi - lo) / 2;
      var units := CountUnits(segments, mid, m);
      if units >= m {
        ans := mid;
        lo := mid + 1;
      } else {
        hi := mid - 1;
      }
    }
  }

  /**
   * For tasks of non-negative size the search finds the optimum: when some
   * efficiency in [1, MinSeg] is feasible, the answer is feasible and no
   * larger one in range is.
   */
  lemma LargestFeasible(segments: seq<int>, m: int, ans: int, x: int)
    requires forall i :: 0 <= i < |segments| ==> segments[i] >= 0
    requires LocallyBest(segments, m, ans)
    requires ans < x <= MinSeg(segments)
    ensures !Feasible(segments, x, m)
  {
    assert ans < MinSeg(segments) && !Feasible(segments, ans + 1, m);
    if Feasible(segments, x, m) {
      FeasibleMonotone(segments, ans + 1, x, m);
      assert false;
    }
  }

  /** For tasks of non-negative size, when 1 is infeasible nothing is, and the answer stays 1. */
  lemma NothingFeasible(segments: seq<int>, m: int, x: int)
    requires forall i :: 0 <= i < |segments| ==> segments[i] >= 0
    requires !Feasible(segments, 1, m)
    requires x >= 1
    ensures !Feasible(segments, x, m)
    ensures !LocallyBest(segments, m, x)
  {
    if Feasible(segments, x, m) {
      FeasibleMonotone(segments, 1, x, m);
    }
  }
}
