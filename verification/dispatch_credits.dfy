/**
 * Warehouse dispatch credits (q66-warehouse-dispatch-credits, Solution.java).
 *
 * Two workers take turns removing goods from a warehouse, `a` units on your
 * turn and `b` on your coworker's; you earn a credit for a warehouse you
 * empty on your own turn, and a skip of your coworker's turn buys you an
 * extra turn. The solution prices each warehouse in skips and buys the
 * cheapest warehouses first while the skip budget lasts.
 */
module DispatchCredits {
  import opened Common
  import opened Ordering
  import opened JavaMath

  /** `ArithmeticException`: a remainder or quotient by zero (`a + b == 0` or `a == 0`). */
  datatype CreditError = DivideByZero

  /** What is left for the last round: Java's `x % t`, with a whole number of rounds counted as a full round. */
  function LastRound(x: int, t: int): int
    requires t != 0
  {
    var rem := Rem(x, t);
    if rem == 0 then t else rem
  }

  /** The skips a warehouse with `x` units costs: `(rem - 1) / a` in Java's truncating division. */
  function Need(x: int, a: int, b: int): int
    requires a != 0 && a + b != 0
  {
    Div(LastRound(x, a + b) - 1, a)
  }

  /**
   * For a non-negative stock and a positive round, the last round leaves
   * between 1 and a + b units, a whole number of rounds before it; the cost
   * is the fewest extra turns of `a` that empty it: `Need` turns after the
   * first fall short and `Need + 1` turns suffice.
   */
  lemma NeedMeaning(x: int, a: int, b: int)
    requires x >= 0 && a > 0 && a + b > 0
    ensures 1 <= LastRound(x, a + b) <= a + b
    ensures (x - LastRound(x, a + b)) % (a + b) == 0
    ensures 0 <= Need(x, a, b)
    ensures Need(x, a, b) * a < LastRound(x, a + b) <= (Need(x, a, b) + 1) * a
  {
    LastRoundRange(x, a + b);
    FewestTurns(LastRound(x, a + b), a);
  }

  lemma LastRoundRange(x: int, t: int)
    requires x >= 0 && t > 0
    ensures 1 <= LastRound(x, t) <= t
    ensures (x - LastRound(x, t)) % t == 0
  {
    DivNonNegative(x, t);
    var q := x / t;
    if x % t == 0 {
      assert x - LastRound(x, t) == (q - 1) * t;
      DivModUnique(x - LastRound(x, t), t, q - 1, 0);
    } else {
      assert x - LastRound(x, t) == q * t;
      DivModUnique(x - LastRound(x, t), t, q, 0);
    }
  }

  /** `(rem - 1) / a` turns of `a` fall short of `rem`, one more reaches it. */
  lemma FewestTurns(rem: int, a: int)
    requires rem >= 1 && a > 0
    ensures 0 <= Div(rem - 1, a)
    ensures Div(rem - 1, a) * a < rem <= (Div(rem - 1, a) + 1) * a
  {
    DivNonNegative(rem - 1, a);
    var q := (rem - 1) / a;
    assert rem - 1 == q * a + (rem - 1) % a;
    assert (q + 1) * a == q * a + a;
  }

  /** The cost of every warehouse, in input order. */
  function Costs(inventory: seq<int>, a: int, b: int): (r: seq<int>)
    requires a != 0 && a + b != 0
    ensures |r| == |inventory|
    ensures forall i :: 0 <= i < |r| ==> r[i] == Need(inventory[i], a, b)
  {
    seq(|inventory|, i requires 0 <= i < |inventory| => Need(inventory[i], a, b))
  }

  /** The greedy pass: take costs from the front while the running total stays within the budget. */
  function Take(costs: seq<int>, budget: int): (r: nat)
    ensures r <= |costs|
  {
    if costs == [] || costs[0] > budget then 0
    else 1 + Take(costs[1..], budget - costs[0])
  }

  /**
   * The greedy count is where the running total first overruns the budget:
   * the costs it takes fit, and one more would not.
   */
  lemma {:induction false} TakePrefix(costs: seq<int>, budget: int)
    ensures forall j :: 1 <= j <= Take(costs, budget) ==> Sum(costs[..j]) <= budget
    ensures Take(costs, budget) < |costs| ==> Sum(costs[..Take(costs, budget) + 1]) > budget
    decreases |costs|
  {
    if costs != [] {
      SumFront(costs, 1);
      if costs[0] <= budget {
        var rest := Take(costs[1..], budget - costs[0]);
        TakePrefix(costs[1..], budget - costs[0]);
        forall j | 1 <= j <= rest + 1 ensures Sum(costs[..j]) <= budget {
          SumFront(costs, j);
        }
        if rest < |costs| - 1 {
          SumFront(costs, rest + 2);
        }
      }
    }
  }

  /** A prefix sum is the first cost plus the prefix sum of the rest. */
  lemma SumFront(costs: seq<int>, j: int)
    requires 1 <= j <= |costs|
    ensures Sum(costs[..j]) == costs[0] + Sum(costs[1..][..j - 1])
  {
    assert costs[..j][1..] == costs[1..][..j - 1];
  }

  /**
   * `maxCredits`: an empty inventory gives zero credits without dividing; any other
   * input with a zero round or a zero `a` throws; otherwise the greedy count
   * over the costs in ascending order.
   */
  function MaxCredits(inventory: seq<int>, a: int, b: int, skips: int): (r: Result<nat, CreditError>)
    ensures r.Err? <==> |inventory| > 0 && (a == 0 || a + b == 0)
    ensures r.Ok? ==> r.value <= |inventory|
    ensures r.Ok? && |inventory| > 0 ==> r.value == Take(SortInts(Costs(inventory, a, b)), skips)
  {
    if |inventory| == 0 then Ok(0)
    else if a == 0 || a + b == 0 then Err(DivideByZero)
    else Ok(Take(SortInts(Costs(inventory, a, b)), skips))
  }

  /**
   * The loop of the solution: `used` is the total of the costs taken so far,
   * and the loop stops at the first cost that would overrun the budget.
   */
  method CountCredits(costs: seq<int>, skips: int) returns (credits: nat)
    ensures credits <= |costs|
    ensures forall j :: 1 <= j <= credits ==> Sum(costs[..j]) <= skips
    ensures credits < |costs| ==> Sum(costs[..credits + 1]) > skips
  {
    var used := 0;
    credits := 0;
    while credits < |costs|
      invariant 0 <= credits <= |costs|
      invariant used == Sum(costs[..credits])
      invariant forall j :: 1 <= j <= credits ==> Sum(costs[..j]) <= skips
    {
      var need := costs[credits];
      assert costs[..credits + 1] == costs[..credits] + [need];
      SumAppend(costs[..credits], [need]);
      assert Sum([need]) == need + Sum([]);
      if used + need <= skips {
        used := used + need;
        credits := credits + 1;
      } else {
        break;
      }
    }
  }

  /** The loop and the greedy function agree: both stop at the first prefix that overruns the budget. */
  lemma CountIsTake(costs: seq<int>, skips: int, credits: nat)
    requires credits <= |costs|
    requires forall j :: 1 <= j <= credits ==> Sum(costs[..j]) <= skips
    requires credits < |costs| ==> Sum(costs[..credits + 1]) > skips
    ensures credits == Take(costs, skips)
  {
    TakePrefix(costs, skips);
  }

  /** With non-negative costs, a longer prefix never costs less. */
  lemma PrefixSumMonotone(s: seq<int>, i: int, j: int)
    requires 0 <= i <= j <= |s|
    requires forall k :: 0 <= k < |s| ==> s[k] >= 0
    ensures Sum(s[..i]) <= Sum(s[..j])
  {
    assert s[..j] == s[..i] + s[i..j];
    SumAppend(s[..i], s[i..j]);
    SumNonNegative(s[i..j]);
  }

  /** The costs picked by a strictly increasing list of positions. */
  function Pick(costs: seq<int>, picks: seq<int>): (r: seq<int>)
    requires forall j :: 0 <= j < |picks| ==> 0 <= picks[j] < |costs|
    ensures |r| == |picks|
    ensures forall j :: 0 <= j < |picks| ==> r[j] == costs[picks[j]]
  {
    seq(|picks|, j requires 0 <= j < |picks| => costs[picks[j]])
  }

  /** The j-th of strictly increasing positions is at least j. */
  lemma {:induction false} PicksAtLeastIndex(picks: seq<int>, j: int)
    requires forall i :: 0 <= i < |picks| ==> picks[i] >= 0
    requires forall i, k :: 0 <= i < k < |picks| ==> picks[i] < picks[k]
    requires 0 <= j < |picks|
    ensures picks[j] >= j
    decreases j
  {
    if j > 0 {
      PicksAtLeastIndex(picks, j - 1);
    }
  }

  /**
   * The greedy count is the best possible: over non-negative costs in
   * ascending order, any choice of more warehouses than it takes costs more
   * skips than the budget.
   */
  lemma GreedyIsOptimal(costs: seq<int>, skips: int, picks: seq<int>)
    requires Ascending(costs)
    requires forall k :: 0 <= k < |costs| ==> costs[k] >= 0
    requires forall j :: 0 <= j < |picks| ==> 0 <= picks[j] < |costs|
    requires forall i, k :: 0 <= i < k < |picks| ==> picks[i] < picks[k]
    requires |picks| > Take(costs, skips)
    ensures Sum(Pick(costs, picks)) > skips
  {
    var m := |picks|;
    var r := Take(costs, skips);
    TakePrefix(costs, skips);
    PicksAtLeastIndex(picks, m - 1);
    forall j | 0 <= j < m ensures costs[..m][j] <= Pick(costs, picks)[j] {
      PicksAtLeastIndex(picks, j);
    }
    SumPointwise(costs[..m], Pick(costs, picks));
    PrefixSumMonotone(costs, r + 1, m);
  }

  /**
   * For non-negative stocks and a positive `a` and round, the answer is the
   * greedy count over the ascending costs, every cost is non-negative, and
   * no choice of more warehouses fits in the budget.
   */
  lemma MaxCreditsOptimal(inventory: seq<int>, a: int, b: int, skips: int, picks: seq<int>)
    requires forall i :: 0 <= i < |inventory| ==> inventory[i] >= 0
    requires a > 0 && a + b > 0
    requires forall j :: 0 <= j < |picks| ==> 0 <= picks[j] < |inventory|
    requires forall i, k :: 0 <= i < k < |picks| ==> picks[i] < picks[k]
    requires MaxCredits(inventory, a, b, skips).Ok? && |picks| > MaxCredits(inventory, a, b, skips).value
    ensures Sum(Pick(SortInts(Costs(inventory, a, b)), picks)) > skips
  {
    var costs := Costs(inventory, a, b);
    forall i | 0 <= i < |costs| ensures costs[i] >= 0 {
      NeedMeaning(inventory[i], a, b);
    }
    SortedCostsNonNegative(costs);
    GreedyIsOptimal(SortInts(costs), skips, picks);
  }

  /** Sorting keeps every entry, so non-negative entries stay non-negative. */
  lemma SortedCostsNonNegative(costs: seq<int>)
    requires forall i :: 0 <= i < |costs| ==> costs[i] >= 0
    ensures forall i :: 0 <= i < |SortInts(costs)| ==> SortInts(costs)[i] >= 0
  {
    SortIntsPermutes(costs);
    forall i | 0 <= i < |SortInts(costs)| ensures SortInts(costs)[i] >= 0 {
      assert SortInts(costs)[i] in multiset(costs);
    }
  }
}
