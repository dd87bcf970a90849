/**
 * Orders, sorting and selection shared by the exercises: the sorted views of
 * `TreeMap`/`TreeSet`, `Collections.sort` with a comparator, and the
 * `min`/`max` over a collection that most of the placement code performs.
 */
module Ordering {
  import Strings

  predicate Distinct<T(==)>(s: seq<T>) {
    forall i, j :: 0 <= i < j < |s| ==> s[i] != s[j]
  }

  /** No element of `s` is in `used`. */
  predicate NoneIn<T(==)>(s: seq<T>, used: set<T>) {
    forall k :: 0 <= k < |s| ==> s[k] !in used
  }

  /** Reading a sequence of new ids front to back: the head must be new, then the tail must avoid it too. */
  lemma FreshDistinctCons<T>(used: set<T>, x: T, tail: seq<T>)
    ensures Distinct([x] + tail) && NoneIn([x] + tail, used) <==>
            x !in used && Distinct(tail) && NoneIn(tail, used + {x})
  {
    var s := [x] + tail;
    if x !in used && Distinct(tail) && NoneIn(tail, used + {x}) {
      forall i, j | 0 <= i < j < |s| ensures s[i] != s[j] {
        assert s[j] == tail[j - 1];
        if i > 0 { assert s[i] == tail[i - 1]; }
      }
      forall k | 0 <= k < |s| ensures s[k] !in used {
        if k > 0 { assert s[k] == tail[k - 1]; }
      }
    }
    if Distinct(s) && NoneIn(s, used) {
      forall k | 0 <= k < |tail| ensures tail[k] !in used + {x} {
        assert tail[k] == s[k + 1] && s[0] == x;
      }
      forall i, j | 0 <= i < j < |tail| ensures tail[i] != tail[j] {
        assert tail[i] == s[i + 1] && tail[j] == s[j + 1];
      }
    }
  }

  // ---------------------------------------------------------------------------
  // Ranking strings by an integer key, ties by `String.compareTo`
  // ---------------------------------------------------------------------------

  /** `a` comes no later than `b`: smaller key first, equal keys in lexicographic order. */
  predicate KeyLe(key: string -> int, a: string, b: string) {
    key(a) < key(b) || (key(a) == key(b) && Strings.LessEq(a, b))
  }

  lemma KeyLeTotal(key: string -> int, a: string, b: string)
    ensures KeyLe(key, a, b) || KeyLe(key, b, a)
  {
    if key(a) == key(b) && a != b {
      Strings.LessTotal(a, b);
    }
  }

  lemma KeyLeTransitive(key: string -> int, a: string, b: string, c: string)
    requires KeyLe(key, a, b) && KeyLe(key, b, c)
    ensures KeyLe(key, a, c)
  {
    if key(a) == key(b) == key(c) && a != b && b != c {
      Strings.LessTransitive(a, b, c);
    }
  }

  lemma KeyLeAntisymmetric(key: string -> int, a: string, b: string)
    requires KeyLe(key, a, b) && KeyLe(key, b, a)
    ensures a == b
  {
    if a != b {
      Strings.LessAsymmetric(a, b);
    }
  }

  /** `m` is the element of `s` that ranks first. */
  predicate IsLeast(key: string -> int, m: string, s: set<string>) {
    m in s && forall y :: y in s ==> KeyLe(key, m, y)
  }

  lemma {:induction false} LeastExists(key: string -> int, s: set<string>)
    requires s != {}
    ensures exists m :: IsLeast(key, m, s)
    decreases s
  {
    var x :| x in s;
    var rest := s - {x};
    if rest == {} {
      assert s == {x};
      assert IsLeast(key, x, s);
    } else {
      LeastExists(key, rest);
      var m :| IsLeast(key, m, rest);
      KeyLeTotal(key, m, x);
      var w := if KeyLe(key, m, x) then m else x;
      forall y | y in s
        ensures KeyLe(key, w, y)
      {
        if y == x {
          KeyLeTotal(key, x, x);
        } else if w == x {
          KeyLeTransitive(key, x, m, y);
        }
      }
      assert IsLeast(key, w, s);
    }
  }

  lemma LeastUnique(key: string -> int, s: set<string>)
    ensures forall a, b :: IsLeast(key, a, s) && IsLeast(key, b, s) ==> a == b
  {
    forall a, b | IsLeast(key, a, s) && IsLeast(key, b, s)
      ensures a == b
    {
      KeyLeAntisymmetric(key, a, b);
    }
  }

  /** The element of a non-empty set that ranks first: the winner of a `min` scan with a name tie-break. */
  function Least(key: string -> int, s: set<string>): (m: string)
    requires s != {}
    ensures IsLeast(key, m, s)
  {
    LeastExists(key, s);
    LeastUnique(key, s);
    var m :| IsLeast(key, m, s);
    m
  }

  lemma LeastBeforeAll(s: set<string>, m: string, rest: seq<string>)
    requires IsLeast(_ => 0, m, s)
    requires forall x :: x in rest <==> x in s - {m}
    ensures forall j :: 0 <= j < |rest| ==> Strings.Less(m, rest[j])
  {
    forall j | 0 <= j < |rest| ensures Strings.Less(m, rest[j]) {
      assert rest[j] in s - {m};
      assert KeyLe(_ => 0, m, rest[j]);
    }
  }

  /** The strings of `s` in increasing order: a sorted `TreeSet` view, or `Collections.sort` on a list without repeats. */
  function SortedSet(s: set<string>): (r: seq<string>)
    ensures |r| == |s|
    ensures forall x :: x in r <==> x in s
    ensures forall i, j :: 0 <= i < j < |r| ==> Strings.Less(r[i], r[j])
    decreases s
  {
    if s == {} then []
    else
      var m := Least(_ => 0, s);
      var rest := SortedSet(s - {m});
      LeastBeforeAll(s, m, rest);
      [m] + rest
  }

  /** The sorted view lists each string once. */
  lemma SortedSetDistinct(s: set<string>)
    ensures Distinct(SortedSet(s))
  {
    var r := SortedSet(s);
    forall i, j | 0 <= i < j < |r|
      ensures r[i] != r[j]
    {
      Strings.LessIrreflexive(r[i]);
    }
  }

  /** `m` is the element of `s` that ranks last. */
  predicate IsGreatest(key: string -> int, m: string, s: set<string>) {
    m in s && forall y :: y in s ==> KeyLe(key, y, m)
  }

  lemma {:induction false} GreatestExists(key: string -> int, s: set<string>)
    requires s != {}
    ensures exists m :: IsGreatest(key, m, s)
    decreases s
  {
    var x :| x in s;
    var rest := s - {x};
    if rest == {} {
      assert s == {x};
      KeyLeTotal(key, x, x);
      assert IsGreatest(key, x, s);
    } else {
      GreatestExists(key, rest);
      var m :| IsGreatest(key, m, rest);
      KeyLeTotal(key, m, x);
      var w := if KeyLe(key, x, m) then m else x;
      forall y | y in s
        ensures KeyLe(key, y, w)
      {
        if y == x {
          KeyLeTotal(key, x, x);
        } else if w == x {
          KeyLeTransitive(key, y, m, x);
        }
      }
      assert IsGreatest(key, w, s);
    }
  }

  /** The element of a non-empty set that ranks last: a `TreeSet.floor` or `last` under the same order. */
  function Greatest(key: string -> int, s: set<string>): (m: string)
    requires s != {}
    ensures IsGreatest(key, m, s)
  {
    GreatestExists(key, s);
    assert forall a, b :: IsGreatest(key, a, s) && IsGreatest(key, b, s) ==> a == b by {
      forall a, b | IsGreatest(key, a, s) && IsGreatest(key, b, s) ensures a == b {
        KeyLeAntisymmetric(key, a, b);
      }
    }
    var m :| IsGreatest(key, m, s);
    m
  }

  lemma LeastBeforeRest(key: string -> int, s: set<string>, m: string, rest: seq<string>)
    requires IsLeast(key, m, s)
    requires forall x :: x in rest <==> x in s - {m}
    ensures forall j :: 0 <= j < |rest| ==> KeyLe(key, m, rest[j]) && m != rest[j]
  {
    forall j | 0 <= j < |rest| ensures KeyLe(key, m, rest[j]) && m != rest[j] {
      assert rest[j] in s - {m};
    }
  }

  /** The strings of `s` ranked by `key`, ties in lexicographic order: a `TreeSet` with that comparator, iterated. */
  function SortedBy(key: string -> int, s: set<string>): (r: seq<string>)
    ensures |r| == |s|
    ensures forall x :: x in r <==> x in s
    ensures forall i, j :: 0 <= i < j < |r| ==> KeyLe(key, r[i], r[j]) && r[i] != r[j]
    decreases s
  {
    if s == {} then []
    else
      var m := Least(key, s);
      var rest := SortedBy(key, s - {m});
      LeastBeforeRest(key, s, m, rest);
      var r := [m] + rest;
      assert forall i, j :: 0 <= i < j < |r| ==> KeyLe(key, r[i], r[j]) && r[i] != r[j] by {
        forall i, j | 0 <= i < j < |r| ensures KeyLe(key, r[i], r[j]) && r[i] != r[j] {
          assert r[j] == rest[j - 1];
          if i > 0 {
            assert r[i] == rest[i - 1];
          }
        }
      }
      r
  }

  // ---------------------------------------------------------------------------
  // The smallest number of a set: a min-heap's `poll`, `TreeSet.first`
  // ---------------------------------------------------------------------------

  predicate IsMin(m: int, s: set<int>) {
    m in s && forall y :: y in s ==> m <= y
  }

  lemma {:induction false} MinExists(s: set<int>)
    requires s != {}
    ensures exists m :: IsMin(m, s)
    decreases s
  {
    if forall y :: y !in s { assert false; }
    var x :| x in s;
    if s - {x} == {} {
      assert s == {x};
      assert IsMin(x, s);
    } else {
      MinExists(s - {x});
      var m :| IsMin(m, s - {x});
      var w := if m <= x then m else x;
      forall y | y in s ensures w <= y {
        if y != x { assert y in s - {x}; }
      }
      assert IsMin(w, s);
    }
  }

  function Min(s: set<int>): (m: int)
    requires s != {}
    ensures IsMin(m, s)
  {
    MinExists(s);
    var m :| IsMin(m, s);
    m
  }

  predicate IsMax(m: int, s: set<int>) {
    m in s && forall y :: y in s ==> y <= m
  }

  lemma {:induction false} MaxExists(s: set<int>)
    requires s != {}
    ensures exists m :: IsMax(m, s)
    decreases s
  {
    if forall y :: y !in s { assert false; }
    var x :| x in s;
    if s - {x} == {} {
      assert s == {x};
      assert IsMax(x, s);
    } else {
      MaxExists(s - {x});
      var m :| IsMax(m, s - {x});
      var w := if m >= x then m else x;
      forall y | y in s ensures y <= w {
        if y != x { assert y in s - {x}; }
      }
      assert IsMax(w, s);
    }
  }

  function Max(s: set<int>): (m: int)
    requires s != {}
    ensures IsMax(m, s)
  {
    MaxExists(s);
    var m :| IsMax(m, s);
    m
  }

  /** The elements of a finite set of integers in strictly ascending order (`Collections.sort` of the set's elements). */
  function SortedInts(s: set<int>): (r: seq<int>)
    ensures |r| == |s|
    ensures forall x :: x in r <==> x in s
    ensures forall i, j :: 0 <= i < j < |r| ==> r[i] < r[j]
    decreases |s|
  {
    if s == {} then []
    else
      var m := Min(s);
      [m] + SortedInts(s - {m})
  }

  /** Ascending order, ties allowed. */
  predicate Ascending(s: seq<int>) {
    forall i, j :: 0 <= i < j < |s| ==> s[i] <= s[j]
  }

  /** Insert into an ascending sequence, before the first element that is not smaller. */
  function InsertAscending(x: int, s: seq<int>): (r: seq<int>)
    requires Ascending(s)
    ensures Ascending(r)
    ensures multiset(r) == multiset(s) + multiset{x}
    ensures |r| == |s| + 1
    decreases |s|
  {
    if s == [] || x <= s[0] then [x] + s
    else
      var rest := InsertAscending(x, s[1..]);
      BoundedByElements(s[0], rest, s[1..], x);
      AscendingCons(s[0], rest);
      MultisetCons(s, rest, x);
      [s[0]] + rest
  }

  lemma AscendingCons(h: int, t: seq<int>)
    requires Ascending(t) && forall k :: 0 <= k < |t| ==> h <= t[k]
    ensures Ascending([h] + t)
  {
  }

  lemma MultisetCons(s: seq<int>, rest: seq<int>, x: int)
    requires s != [] && multiset(rest) == multiset(s[1..]) + multiset{x}
    ensures multiset([s[0]] + rest) == multiset(s) + multiset{x}
  {
    assert s == [s[0]] + s[1..];
  }

  /** Every element of a sequence holding the elements of `t` plus `x` is at least a bound of them all. */
  lemma BoundedByElements(lo: int, r: seq<int>, t: seq<int>, x: int)
    requires multiset(r) == multiset(t) + multiset{x}
    requires lo <= x && forall k :: 0 <= k < |t| ==> lo <= t[k]
    ensures forall k :: 0 <= k < |r| ==> lo <= r[k]
  {
    forall k | 0 <= k < |r| ensures lo <= r[k] {
      assert r[k] in multiset(r);
      if r[k] != x {
        assert r[k] in multiset(t);
      }
    }
  }

  /** `Arrays.sort` on integers: the same elements (see SortIntsPermutes) in ascending order. */
  function SortInts(s: seq<int>): (r: seq<int>)
    ensures Ascending(r)
    ensures |r| == |s|
    decreases |s|
  {
    if s == [] then [] else InsertAscending(s[0], SortInts(s[1..]))
  }

  /** Sorting keeps every element with its multiplicity. */
  lemma {:induction false} SortIntsPermutes(s: seq<int>)
    ensures multiset(SortInts(s)) == multiset(s)
    decreases |s|
  {
    if s != [] {
      SortIntsPermutes(s[1..]);
      assert s == [s[0]] + s[1..];
    }
  }

  /** The numbers 0 .. n-1, the ids a loop `for (i = 0; i < n; i++)` hands out. */
  function Range(n: int): (r: set<int>)
    ensures forall i :: i in r <==> 0 <= i < n
    decreases n
  {
    if n <= 0 then {} else Range(n - 1) + {n - 1}
  }

  // ---------------------------------------------------------------------------
  // Sums
  // ---------------------------------------------------------------------------

  function Sum(s: seq<int>): int {
    if s == [] then 0 else s[0] + Sum(s[1..])
  }

  lemma {:induction false} SumAppend(a: seq<int>, b: seq<int>)
    ensures Sum(a + b) == Sum(a) + Sum(b)
    decreases |a|
  {
    if a == [] {
      assert a + b == b;
    } else {
      assert (a + b)[1..] == a[1..] + b;
      SumAppend(a[1..], b);
    }
  }

  /** Changing one entry changes the sum by the difference. */
  lemma {:induction false} SumUpdate(s: seq<int>, i: int, v: int)
    requires 0 <= i < |s|
    ensures Sum(s[i := v]) == Sum(s) - s[i] + v
    decreases |s|
  {
    if i == 0 {
      assert s[i := v][1..] == s[1..];
    } else {
      assert s[i := v][1..] == s[1..][i - 1 := v];
      SumUpdate(s[1..], i - 1, v);
    }
  }

  /** A sequence of zeros sums to zero. */
  lemma {:induction false} SumZeros(n: nat)
    ensures Sum(seq(n, _ => 0)) == 0
  {
    if n > 0 {
      assert seq(n, _ => 0)[1..] == seq(n - 1, _ => 0);
      SumZeros(n - 1);
    }
  }

  /** A sum of non-negative entries is at least any one of them. */
  lemma {:induction false} SumAtLeast(s: seq<int>, i: int)
    requires forall k :: 0 <= k < |s| ==> s[k] >= 0
    requires 0 <= i < |s|
    ensures Sum(s) >= s[i] >= 0
    decreases |s|
  {
    if i > 0 {
      SumAtLeast(s[1..], i - 1);
    } else {
      SumNonNegative(s[1..]);
    }
  }

  lemma {:induction false} SumNonNegative(s: seq<int>)
    requires forall k :: 0 <= k < |s| ==> s[k] >= 0
    ensures Sum(s) >= 0
    decreases |s|
  {
    if s != [] {
      SumNonNegative(s[1..]);
    }
  }

  /** Entry-wise smaller sequences of the same length have the smaller sum. */
  lemma {:induction false} SumPointwise(s: seq<int>, t: seq<int>)
    requires |s| == |t|
    requires forall k :: 0 <= k < |s| ==> s[k] <= t[k]
    ensures Sum(s) <= Sum(t)
    decreases |s|
  {
    if s != [] {
      SumPointwise(s[1..], t[1..]);
    }
  }

  // ---------------------------------------------------------------------------
  // Sums over a set of keys (a loop over a hash map's entries)
  // ---------------------------------------------------------------------------

  /** The sum of `f` over the keys in `s`, in no particular order. */
  ghost function SetSum(s: set<string>, f: string -> int): int
    decreases s
  {
    if forall x :: x !in s then 0
    else
      var x :| x in s;
      f(x) + SetSum(s - {x}, f)
  }

  /** Any key can be taken out of the sum first. */
  lemma {:induction false} SetSumRemove(s: set<string>, f: string -> int, y: string)
    requires y in s
    ensures SetSum(s, f) == f(y) + SetSum(s - {y}, f)
    decreases s
  {
    var x :| x in s && SetSum(s, f) == f(x) + SetSum(s - {x}, f);
    if x != y {
      SetSumRemove(s - {x}, f, y);
      SetSumRemove(s - {y}, f, x);
      assert s - {x} - {y} == s - {y} - {x};
    }
  }

  /** The sum only reads `f` on the keys it sums. */
  lemma {:induction false} SetSumFrame(s: set<string>, f: string -> int, g: string -> int)
    requires forall x :: x in s ==> f(x) == g(x)
    ensures SetSum(s, f) == SetSum(s, g)
    decreases s
  {
    if exists x :: x in s {
      var x :| x in s && SetSum(s, f) == f(x) + SetSum(s - {x}, f);
      SetSumRemove(s, g, x);
      SetSumFrame(s - {x}, f, g);
    }
  }

  /** Adding `delta` at one key, possibly a new one, and leaving every other key alone raises the sum by `delta`. */
  lemma SetSumBump(s: set<string>, f: string -> int, g: string -> int, y: string, delta: int)
    requires forall x :: x in s && x != y ==> f(x) == g(x)
    requires g(y) == (if y in s then f(y) else 0) + delta
    ensures SetSum(s + {y}, g) == SetSum(s, f) + delta
  {
    SetSumFrame(s - {y}, f, g);
    SetSumRemove(s + {y}, g, y);
    assert s + {y} - {y} == s - {y};
    if y in s {
      SetSumRemove(s, f, y);
    } else {
      assert s - {y} == s;
    }
  }

  /** The sum of `f` over a sequence of keys, front to back. */
  function SeqSum(keys: seq<string>, f: string -> int): int {
    if keys == [] then 0 else f(keys[0]) + SeqSum(keys[1..], f)
  }

  /** Summing a repeat-free sequence gives the sum over its set of keys, whatever the order. */
  lemma {:induction false} SeqSumIsSetSum(keys: seq<string>, f: string -> int, s: set<string>)
    requires Distinct(keys)
    requires forall x :: x in s <==> x in keys
    ensures SeqSum(keys, f) == SetSum(s, f)
    decreases |keys|
  {
    if keys == [] {
      assert forall x :: x !in s;
    } else {
      SetSumRemove(s, f, keys[0]);
      assert forall x :: x in keys[1..] ==> x in keys;
      assert forall x :: x in s - {keys[0]} <==> x in keys[1..];
      SeqSumIsSetSum(keys[1..], f, s - {keys[0]});
    }
  }
}
