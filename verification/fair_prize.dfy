/**
 * Fair prize distribution (q71-fair-prize-distribution, Solution.java).
 *
 * Every participant gets a prize value drawn from a pool: equal scores get
 * equal values, a higher score a strictly higher value, and no value is
 * handed out more often than the pool holds it. The solution groups the
 * participants by score, compresses the sorted pool into (value, copies)
 * pairs, and gives each score group, lowest score first, the smallest
 * remaining value with enough copies.
 */
module FairPrize {
  import opened Common
  import opened Ordering

  /** A value with how many times it occurs: a score with its group size, or a prize value with its copies. */
  datatype Tally = Tally(value: int, count: nat)

  /** Tallies in strictly increasing order of value, none of them empty. */
  predicate Tallied(g: seq<Tally>) {
    (forall i, j :: 0 <= i < j < |g| ==> g[i].value < g[j].value) &&
    (forall i :: 0 <= i < |g| ==> g[i].count >= 1)
  }

  /** How often `v` occurs according to the tallies: 0 when it has none. */
  function CountOf(g: seq<Tally>, v: int): nat
    decreases |g|
  {
    if g == [] then 0
    else if g[0].value == v then g[0].count
    else CountOf(g[1..], v)
  }

  /**
   * Run-length compression of an ascending sequence: the two passes over the
   * sorted prizes, and equally the score frequencies read in sorted order of score.
   */
  function Tallies(s: seq<int>): seq<Tally>
    decreases |s|
  {
    if s == [] then []
    else
      var rest := Tallies(s[1..]);
      if rest != [] && rest[0].value == s[0] then [Tally(s[0], rest[0].count + 1)] + rest[1..]
      else [Tally(s[0], 1)] + rest
  }

  /** The tallies of an ascending sequence are strictly increasing, start at its first element, and count every value exactly. */
  lemma {:induction false} TalliesMeaning(s: seq<int>)
    requires Ascending(s)
    ensures Tallied(Tallies(s))
    ensures s != [] ==> Tallies(s) != [] && Tallies(s)[0].value == s[0]
    ensures forall v :: CountOf(Tallies(s), v) == multiset(s)[v]
    decreases |s|
  {
    if s != [] {
      AscendingTail(s);
      TalliesMeaning(s[1..]);
      TalliesStep(s);
    }
  }

  lemma AscendingTail(s: seq<int>)
    requires Ascending(s) && s != []
    ensures Ascending(s[1..]) && (|s| > 1 ==> s[0] <= s[1])
  {
  }

  /** One step of the compression: the first element joins the first tally or starts a new one. */
  lemma TalliesStep(s: seq<int>)
    requires s != [] && (|s| > 1 ==> s[0] <= s[1])
    requires Tallied(Tallies(s[1..]))
    requires s[1..] != [] ==> Tallies(s[1..]) != [] && Tallies(s[1..])[0].value == s[1]
    requires forall v :: CountOf(Tallies(s[1..]), v) == multiset(s[1..])[v]
    ensures Tallied(Tallies(s))
    ensures Tallies(s) != [] && Tallies(s)[0].value == s[0]
    ensures forall v :: CountOf(Tallies(s), v) == multiset(s)[v]
  {
    var rest := Tallies(s[1..]);
    MultisetFront(s);
    if rest != [] && rest[0].value == s[0] {
      MergeFront(s[0], rest);
    } else {
      ConsFront(s[0], rest);
    }
  }

  lemma MultisetFront(s: seq<int>)
    requires s != []
    ensures forall v :: multiset(s)[v] == multiset(s[1..])[v] + (if v == s[0] then 1 else 0)
  {
    assert s == [s[0]] + s[1..];
  }

  /** One more copy of the first value of the tallies. */
  lemma MergeFront(x: int, rest: seq<Tally>)
    requires Tallied(rest) && rest != [] && rest[0].value == x
    ensures Tallied([Tally(x, rest[0].count + 1)] + rest[1..])
    ensures forall v :: CountOf([Tally(x, rest[0].count + 1)] + rest[1..], v) == CountOf(rest, v) + (if v == x then 1 else 0)
  {
    var g := [Tally(x, rest[0].count + 1)] + rest[1..];
    assert g[1..] == rest[1..];
  }

  /** A new smallest value in front of the tallies. */
  lemma ConsFront(x: int, rest: seq<Tally>)
    requires Tallied(rest) && (rest != [] ==> x < rest[0].value)
    ensures Tallied([Tally(x, 1)] + rest)
    ensures forall v :: CountOf([Tally(x, 1)] + rest, v) == CountOf(rest, v) + (if v == x then 1 else 0)
  {
    var g := [Tally(x, 1)] + rest;
    assert g[1..] == rest;
    forall v | v == x ensures CountOf(rest, v) == 0 {
      AbsentBelow(rest, v);
    }
  }

  /** A value below the first of the tallies does not occur. */
  lemma AbsentBelow(g: seq<Tally>, v: int)
    requires Tallied(g) && (g != [] ==> v < g[0].value)
    ensures CountOf(g, v) == 0
  {
    if CountOf(g, v) > 0 {
      CountedAtLeastFirst(g, v);
    }
  }

  /** A value that occurs is no smaller than the first of the tallies. */
  lemma {:induction false} CountedAtLeastFirst(g: seq<Tally>, v: int)
    requires Tallied(g) && CountOf(g, v) > 0
    ensures g != [] && g[0].value <= v
    decreases |g|
  {
    if g[0].value != v {
      TalliedRest(g);
      CountedAtLeastFirst(g[1..], v);
    }
  }

  lemma TalliedRest(g: seq<Tally>)
    requires Tallied(g) && g != []
    ensures Tallied(g[1..])
    ensures forall k :: 0 <= k < |g[1..]| ==> g[0].value < g[1..][k].value
  {
  }

  /** The value at position t of the tallies occurs exactly `count` times. */
  lemma {:induction false} CountAt(g: seq<Tally>, t: int)
    requires Tallied(g) && 0 <= t < |g|
    ensures CountOf(g, g[t].value) == g[t].count
    decreases t
  {
    if t > 0 {
      TalliedRest(g);
      CountAt(g[1..], t - 1);
    }
  }

  /** Where a value that occurs sits in the tallies. */
  lemma {:induction false} IndexOf(g: seq<Tally>, v: int) returns (t: int)
    requires CountOf(g, v) > 0
    ensures 0 <= t < |g| && g[t].value == v
    decreases |g|
  {
    if g[0].value == v {
      t := 0;
    } else {
      t := IndexOf(g[1..], v);
      t := t + 1;
    }
  }

  /** Strictly increasing values. */
  predicate Rising(c: seq<int>) {
    forall i, j :: 0 <= i < j < |c| ==> c[i] < c[j]
  }

  /**
   * The greedy loop: each score group in turn, lowest score first, takes the
   * first remaining prize value with at least as many copies as the group has
   * members; that value and every one passed over are used up. None when the
   * values run out first.
   */
  function Assign(groups: seq<Tally>, prizes: seq<Tally>): Option<seq<int>>
    decreases |prizes|
  {
    if groups == [] then Some([])
    else if prizes == [] then None
    else if prizes[0].count < groups[0].count then Assign(groups, prizes[1..])
    else
      match Assign(groups[1..], prizes[1..])
      case None => None
      case Some(rest) => Some([prizes[0].value] + rest)
  }

  /**
   * What the greedy hands out is fair to the groups: one value per group,
   * strictly increasing, each with enough copies, none below the first prize value.
   */
  lemma {:induction false} AssignSound(groups: seq<Tally>, prizes: seq<Tally>)
    requires Tallied(prizes) && Assign(groups, prizes).Some?
    ensures |Assign(groups, prizes).value| == |groups|
    ensures Rising(Assign(groups, prizes).value)
    ensures forall t :: 0 <= t < |groups| ==> CountOf(prizes, Assign(groups, prizes).value[t]) >= groups[t].count
    ensures groups != [] ==> prizes != [] && forall t :: 0 <= t < |groups| ==> prizes[0].value <= Assign(groups, prizes).value[t]
    decreases |prizes|
  {
    if groups != [] {
      TalliedRest(prizes);
      if prizes[0].count < groups[0].count {
        AssignSound(groups, prizes[1..]);
        SkipFirst(prizes, Assign(groups, prizes).value);
      } else {
        var rest := Assign(groups[1..], prizes[1..]).value;
        AssignSound(groups[1..], prizes[1..]);
        SkipFirst(prizes, rest);
        TakeFirst(groups, prizes, rest);
      }
    }
  }

  /** Values drawn from the tallies after the first are above it, and count the same in the whole. */
  lemma SkipFirst(prizes: seq<Tally>, c: seq<int>)
    requires Tallied(prizes) && prizes != []
    requires forall t :: 0 <= t < |c| ==> |prizes| > 1 && prizes[1].value <= c[t]
    ensures forall t :: 0 <= t < |c| ==> prizes[0].value < c[t] && CountOf(prizes, c[t]) == CountOf(prizes[1..], c[t])
  {
  }

  lemma TakeFirst(groups: seq<Tally>, prizes: seq<Tally>, rest: seq<int>)
    requires groups != [] && prizes != [] && prizes[0].count >= groups[0].count
    requires |rest| == |groups| - 1 && Rising(rest)
    requires forall t :: 0 <= t < |rest| ==> prizes[0].value < rest[t]
    requires forall t :: 0 <= t < |rest| ==> CountOf(prizes, rest[t]) >= groups[1..][t].count
    ensures var c := [prizes[0].value] + rest;
      |c| == |groups| && Rising(c) &&
      (forall t :: 0 <= t < |groups| ==> CountOf(prizes, c[t]) >= groups[t].count) &&
      forall t :: 0 <= t < |groups| ==> prizes[0].value <= c[t]
  {
  }

  /**
   * The greedy is the least choice: for non-empty groups, whenever some
   * strictly increasing values with enough copies each exist, the greedy
   * succeeds and gives every group a value no larger.
   */
  lemma {:induction false} AssignLeast(groups: seq<Tally>, prizes: seq<Tally>, vs: seq<int>)
    requires Tallied(prizes)
    requires forall t :: 0 <= t < |groups| ==> groups[t].count >= 1
    requires |vs| == |groups| && Rising(vs)
    requires forall t :: 0 <= t < |vs| ==> CountOf(prizes, vs[t]) >= groups[t].count
    ensures Assign(groups, prizes).Some? && |Assign(groups, prizes).value| == |groups|
    ensures forall t :: 0 <= t < |groups| ==> Assign(groups, prizes).value[t] <= vs[t]
    decreases |prizes|
  {
    if groups != [] {
      CountedAtLeastFirst(prizes, vs[0]);
      TalliedRest(prizes);
      if prizes[0].count < groups[0].count {
        assert vs[0] != prizes[0].value;
        AboveFirst(prizes, vs);
        AssignLeast(groups, prizes[1..], vs);
      } else {
        var tail := vs[1..];
        AboveFirst(prizes, tail);
        AssignLeast(groups[1..], prizes[1..], tail);
      }
      AssignSound(groups, prizes);
    }
  }

  /** Values above the first of the tallies count the same without it. */
  lemma AboveFirst(prizes: seq<Tally>, vs: seq<int>)
    requires Tallied(prizes) && prizes != [] && Rising(vs)
    requires vs != [] ==> prizes[0].value < vs[0]
    ensures forall t :: 0 <= t < |vs| ==> CountOf(prizes[1..], vs[t]) == CountOf(prizes, vs[t])
  {
  }

  /** The tallies of any sequence: sorted, then compressed. */
  function TalliesOf(s: seq<int>): (g: seq<Tally>)
    ensures Tallied(g)
    ensures forall v :: CountOf(g, v) == multiset(s)[v]
  {
    SortIntsPermutes(s);
    TalliesMeaning(SortInts(s));
    Tallies(SortInts(s))
  }

  /** `scoreToPrize.get(score)`: the value given to the group with that score (0 for a score with no group, which cannot arise). */
  function PrizeFor(groups: seq<Tally>, chosen: seq<int>, x: int): int
    decreases |groups|
  {
    if groups == [] || chosen == [] then 0
    else if groups[0].value == x then chosen[0]
    else PrizeFor(groups[1..], chosen[1..], x)
  }

  /** The group at position t gets the value chosen at position t. */
  lemma {:induction false} PrizeForAt(groups: seq<Tally>, chosen: seq<int>, t: int)
    requires Tallied(groups) && |chosen| == |groups| && 0 <= t < |groups|
    ensures PrizeFor(groups, chosen, groups[t].value) == chosen[t]
    decreases t
  {
    if t > 0 {
      TalliedRest(groups);
      PrizeForAt(groups[1..], chosen[1..], t - 1);
    }
  }

  /**
   * `findFairDistribution`: empty when there are no participants or fewer
   * prizes than participants, or when the greedy runs out of values;
   * otherwise each participant, in input order, gets the value of their score group.
   */
  function FairDistribution(points: seq<int>, values: seq<int>): (r: seq<int>)
    ensures |points| == 0 || |values| < |points| ==> r == []
    ensures r == [] || |r| == |points|
  {
    if |points| == 0 || |values| < |points| then []
    else
      var groups := TalliesOf(points);
      match Assign(groups, TalliesOf(values))
      case None => []
      case Some(chosen) => seq(|points|, i requires 0 <= i < |points| => PrizeFor(groups, chosen, points[i]))
  }

  /**
   * A fair distribution of `values` over participants with scores `points`:
   * one value each, equal for equal scores, strictly higher for higher
   * scores, and no value used more often than the pool holds it.
   */
  predicate Fair(points: seq<int>, values: seq<int>, d: seq<int>) {
    |d| == |points| &&
    (forall i, j :: 0 <= i < |d| && 0 <= j < |d| && points[i] == points[j] ==> d[i] == d[j]) &&
    (forall i, j :: 0 <= i < |d| && 0 <= j < |d| && points[i] < points[j] ==> d[i] < d[j]) &&
    multiset(d) <= multiset(values)
  }

  /** When the answer is not empty, participant i's value is the one chosen for the group of their score. */
  lemma Slot(points: seq<int>, values: seq<int>, i: int) returns (t: int)
    requires FairDistribution(points, values) != [] && 0 <= i < |points|
    ensures Assign(TalliesOf(points), TalliesOf(values)).Some?
    ensures 0 <= t < |TalliesOf(points)| && TalliesOf(points)[t].value == points[i]
    ensures |Assign(TalliesOf(points), TalliesOf(values)).value| == |TalliesOf(points)|
    ensures FairDistribution(points, values)[i] == Assign(TalliesOf(points), TalliesOf(values)).value[t]
  {
    var groups := TalliesOf(points);
    var chosen := Assign(groups, TalliesOf(values)).value;
    AssignSound(groups, TalliesOf(values));
    assert points[i] in multiset(points);
    t := IndexOf(groups, points[i]);
    PrizeForAt(groups, chosen, t);
  }

  /** Equal scores get equal values and higher scores strictly higher ones. */
  lemma PairFair(points: seq<int>, values: seq<int>, i: int, j: int)
    requires FairDistribution(points, values) != [] && 0 <= i < |points| && 0 <= j < |points|
    ensures points[i] == points[j] ==> FairDistribution(points, values)[i] == FairDistribution(points, values)[j]
    ensures points[i] < points[j] ==> FairDistribution(points, values)[i] < FairDistribution(points, values)[j]
  {
    var ti := Slot(points, values, i);
    var tj := Slot(points, values, j);
    AssignSound(TalliesOf(points), TalliesOf(values));
    SlotOrder(TalliesOf(points), Assign(TalliesOf(points), TalliesOf(values)).value, ti, tj);
  }

  /** Values chosen for the groups follow the order of the groups' scores. */
  lemma SlotOrder(groups: seq<Tally>, chosen: seq<int>, ti: int, tj: int)
    requires Tallied(groups) && Rising(chosen) && |chosen| == |groups|
    requires 0 <= ti < |groups| && 0 <= tj < |groups|
    ensures groups[ti].value == groups[tj].value ==> chosen[ti] == chosen[tj]
    ensures groups[ti].value < groups[tj].value ==> chosen[ti] < chosen[tj]
  {
  }

  /** Each value handed out occurs in the pool at least as often as the group it goes to. */
  lemma EnoughCopies(points: seq<int>, values: seq<int>, i: int)
    requires FairDistribution(points, values) != [] && 0 <= i < |points|
    ensures multiset(values)[FairDistribution(points, values)[i]] >= multiset(points)[points[i]]
  {
    var t := Slot(points, values, i);
    AssignSound(TalliesOf(points), TalliesOf(values));
    CountAt(TalliesOf(points), t);
  }

  /** Two sequences that hold `x` and `v` at exactly the same positions hold them equally often. */
  lemma {:induction false} CountsMatch(a: seq<int>, b: seq<int>, x: int, v: int)
    requires |a| == |b|
    requires forall k :: 0 <= k < |a| ==> (a[k] == x <==> b[k] == v)
    ensures multiset(a)[x] == multiset(b)[v]
    decreases |a|
  {
    if a != [] {
      CountsMatch(a[1..], b[1..], x, v);
      assert a == [a[0]] + a[1..];
      assert b == [b[0]] + b[1..];
    }
  }

  /** The participants sharing a value with participant i are exactly those sharing their score. */
  lemma SameValueSameScore(points: seq<int>, d: seq<int>, i: int)
    requires |d| == |points| && 0 <= i < |points|
    requires forall p, q :: 0 <= p < |d| && 0 <= q < |d| && points[p] == points[q] ==> d[p] == d[q]
    requires forall p, q :: 0 <= p < |d| && 0 <= q < |d| && points[p] < points[q] ==> d[p] < d[q]
    ensures multiset(d)[d[i]] == multiset(points)[points[i]]
  {
    forall k | 0 <= k < |d| ensures d[k] == d[i] <==> points[k] == points[i] {
      if points[k] < points[i] {
        assert d[k] < d[i];
      } else if points[k] > points[i] {
        assert d[i] < d[k];
      }
    }
    CountsMatch(d, points, d[i], points[i]);
  }

  /** A non-empty answer is itself a fair distribution. */
  lemma ResultIsFair(points: seq<int>, values: seq<int>)
    requires FairDistribution(points, values) != []
    ensures Fair(points, values, FairDistribution(points, values))
  {
    var r := FairDistribution(points, values);
    forall i, j | 0 <= i < |r| && 0 <= j < |r|
      ensures points[i] == points[j] ==> r[i] == r[j]
      ensures points[i] < points[j] ==> r[i] < r[j]
    {
      PairFair(points, values, i, j);
    }
    forall v ensures multiset(r)[v] <= multiset(values)[v] {
      if v in multiset(r) {
        var i :| 0 <= i < |r| && r[i] == v;
        SameValueSameScore(points, r, i);
        EnoughCopies(points, values, i);
      }
    }
  }

  /** A sub-multiset has no more elements. */
  lemma SubmultisetSize(a: seq<int>, b: seq<int>)
    requires multiset(a) <= multiset(b)
    ensures |a| <= |b|
  {
    var rest := multiset(b) - multiset(a);
    forall x ensures multiset(b)[x] == (multiset(a) + rest)[x] {
    }
    assert multiset(b) == multiset(a) + rest;
    assert |multiset(b)| == |multiset(a)| + |rest|;
  }

  /** One participant for every score group: a position holding the group's score. */
  lemma {:induction false} Representatives(points: seq<int>, groups: seq<Tally>) returns (reps: seq<int>)
    requires forall t :: 0 <= t < |groups| ==> groups[t].value in multiset(points)
    ensures |reps| == |groups|
    ensures forall t :: 0 <= t < |groups| ==> 0 <= reps[t] < |points| && points[reps[t]] == groups[t].value
    decreases |groups|
  {
    if groups == [] {
      reps := [];
    } else {
      var n := |groups| - 1;
      var front := Representatives(points, groups[..n]);
      var x := groups[n].value;
      assert x in multiset(points);
      var k :| 0 <= k < |points| && points[k] == x;
      reps := front + [k];
      forall t | 0 <= t < |groups| ensures 0 <= reps[t] < |points| && points[reps[t]] == groups[t].value {
        if t < n {
          assert reps[t] == front[t] && groups[..n][t] == groups[t];
        }
      }
    }
  }

  /**
   * The answer is the least fair distribution: whenever some fair
   * distribution `d` exists for at least one participant, the answer is not
   * empty and gives every participant a value no larger than `d` does, so it
   * is also the lexicographically smallest.
   */
  lemma LeastFair(points: seq<int>, values: seq<int>, d: seq<int>)
    requires |points| > 0 && Fair(points, values, d)
    ensures FairDistribution(points, values) != []
    ensures forall i :: 0 <= i < |points| ==> FairDistribution(points, values)[i] <= d[i]
  {
    SubmultisetSize(d, values);
    var groups := TalliesOf(points);
    var prizes := TalliesOf(values);
    var vs := GroupValues(points, values, d);
    AssignLeast(groups, prizes, vs);
    var r := FairDistribution(points, values);
    forall i | 0 <= i < |points| ensures r[i] <= d[i] {
      var t := Slot(points, values, i);
    }
  }

  /**
   * The values a fair distribution gives the score groups: strictly
   * increasing, each with enough copies in the pool, and each equal to what
   * every member of the group gets.
   */
  lemma GroupValues(points: seq<int>, values: seq<int>, d: seq<int>) returns (vs: seq<int>)
    requires Fair(points, values, d)
    ensures |vs| == |TalliesOf(points)| && Rising(vs)
    ensures forall t :: 0 <= t < |vs| ==> CountOf(TalliesOf(values), vs[t]) >= TalliesOf(points)[t].count
    ensures forall t, i :: 0 <= t < |vs| && 0 <= i < |points| && points[i] == TalliesOf(points)[t].value ==> vs[t] == d[i]
  {
    var groups := TalliesOf(points);
    forall t | 0 <= t < |groups| ensures groups[t].value in multiset(points) {
      CountAt(groups, t);
    }
    var reps := Representatives(points, groups);
    vs := seq(|groups|, t requires 0 <= t < |groups| => d[reps[t]]);
    forall t | 0 <= t < |vs| ensures CountOf(TalliesOf(values), vs[t]) >= groups[t].count {
      GroupCopies(points, values, d, reps[t], t);
    }
    RepsInOrder(points, values, d, groups, reps, vs);
  }

  /** The value a fair distribution gives a member of group t occurs in the pool at least as often as the group has members. */
  lemma GroupCopies(points: seq<int>, values: seq<int>, d: seq<int>, k: int, t: int)
    requires Fair(points, values, d) && 0 <= k < |points|
    requires 0 <= t < |TalliesOf(points)| && points[k] == TalliesOf(points)[t].value
    ensures CountOf(TalliesOf(values), d[k]) >= TalliesOf(points)[t].count
  {
    CountAt(TalliesOf(points), t);
    SameValueSameScore(points, d, k);
    assert multiset(d)[d[k]] <= multiset(values)[d[k]];
  }

  lemma RepsInOrder(points: seq<int>, values: seq<int>, d: seq<int>, groups: seq<Tally>, reps: seq<int>, vs: seq<int>)
    requires Fair(points, values, d) && Tallied(groups)
    requires |reps| == |groups| && |vs| == |groups|
    requires forall t :: 0 <= t < |groups| ==> 0 <= reps[t] < |points| && points[reps[t]] == groups[t].value && vs[t] == d[reps[t]]
    ensures Rising(vs)
    ensures forall t, i :: 0 <= t < |vs| && 0 <= i < |points| && points[i] == groups[t].value ==> vs[t] == d[i]
  {
  }

  /** The answer is empty exactly when there is no participant or no fair distribution at all. */
  lemma EmptyIffUnfair(points: seq<int>, values: seq<int>)
    ensures FairDistribution(points, values) == [] <==> |points| == 0 || !exists d :: Fair(points, values, d)
  {
    if FairDistribution(points, values) != [] {
      ResultIsFair(points, values);
    }
    if |points| > 0 && exists d :: Fair(points, values, d) {
      var d :| Fair(points, values, d);
      LeastFair(points, values, d);
    }
  }
}
