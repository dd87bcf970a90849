/**
 * The expense-sharing ledger (q12_expense_sharing_splitwise, SplitBook.java).
 *
 * Every amount is in integer cents. An expense splits the total evenly over
 * its members; the remainder cents go, one each, to the members that come
 * first in a stable sort of the member list by id. Each member's net balance
 * moves by what they paid minus their share, so the nets always sum to zero.
 * `listBalances` matches debtors to creditors greedily, both in id order.
 */
module SplitBook {
  import Strings
  import Ordering
  import JavaMath

  datatype Book = Book(users: set<string>, net: map<string, int>, seen: set<int>)

  // ---------------------------------------------------------------------------
  // Sum of a map's values
  // ---------------------------------------------------------------------------

  /** The smallest key in `String.compareTo` order. */
  function First(m: map<string, int>): (k: string)
    requires m != map[]
    ensures k in m
    ensures forall y :: y in m ==> Strings.LessEq(k, y)
  {
    assert m.Keys != {} by {
      var y :| y in m;
      assert y in m.Keys;
    }
    Ordering.Least(_ => 0, m.Keys)
  }

  /** The sum of all the values of a map, taken in key order. */
  function MapSum(m: map<string, int>): int
    decreases m.Keys
  {
    if m == map[] then 0
    else
      var k := First(m);
      m[k] + MapSum(m - {k})
  }

  /** The sum does not depend on which key is taken out first. */
  lemma {:induction false} MapSumRemove(m: map<string, int>, k: string)
    requires k in m
    ensures MapSum(m) == m[k] + MapSum(m - {k})
    decreases m.Keys
  {
    var f := First(m);
    if f != k {
      var rest := m - {f};
      MapSumRemove(rest, k);
      var m' := m - {k};
      assert m' != map[] by {
        assert f in m';
      }
      assert First(m') == f by {
        Ordering.LeastUnique(_ => 0, m'.Keys);
        assert Ordering.IsLeast(_ => 0, f, m'.Keys);
        assert Ordering.IsLeast(_ => 0, First(m'), m'.Keys);
      }
      assert rest - {k} == m' - {f};
    }
  }

  /** Changing one value changes the sum by the difference. */
  lemma MapSumUpdate(m: map<string, int>, k: string, v: int)
    requires k in m
    ensures MapSum(m[k := v]) == MapSum(m) - m[k] + v
  {
    MapSumRemove(m, k);
    MapSumRemove(m[k := v], k);
    assert m[k := v] - {k} == m - {k};
  }

  /** A new key with value zero leaves the sum unchanged. */
  lemma MapSumAddZero(m: map<string, int>, k: string)
    requires k !in m
    ensures MapSum(m[k := 0]) == MapSum(m)
  {
    MapSumRemove(m[k := 0], k);
    assert m[k := 0] - {k} == m;
  }

  // ---------------------------------------------------------------------------
  // The ledger
  // ---------------------------------------------------------------------------

  /** Every registered user has a net balance, and the balances cancel out. */
  predicate Valid(b: Book) {
    b.net.Keys == b.users && MapSum(b.net) == 0
  }

  function Empty(): (b: Book)
    ensures Valid(b)
  {
    Book({}, map[], {})
  }

  /** `registerUser`: a new id starts at a zero balance; a known id changes nothing. */
  function RegisterUser(b: Book, id: string): (r: Book)
    ensures r.users == b.users + {id} && r.seen == b.seen
    ensures id in b.users ==> r == b
    ensures id !in b.users && id !in b.net ==> r.net == b.net[id := 0]
    ensures id !in b.users && id in b.net ==> r.net == b.net
  {
    if id in b.users then b
    else
      var net := if id in b.net then b.net else b.net[id := 0];
      b.(users := b.users + {id}, net := net)
  }

  /** Registering twice is registering once. */
  lemma RegisterIdempotent(b: Book, id: string)
    ensures RegisterUser(RegisterUser(b, id), id) == RegisterUser(b, id)
  {
  }

  lemma RegisterPreservesValid(b: Book, id: string)
    requires Valid(b)
    ensures Valid(RegisterUser(b, id))
    ensures id !in b.users ==> RegisterUser(b, id).net[id] == 0
  {
    if id !in b.users {
      MapSumAddZero(b.net, id);
    }
  }

  // ---------------------------------------------------------------------------
  // Splitting an expense
  // ---------------------------------------------------------------------------

  /** Index `x` comes before index `y` in a stable sort of the members by id. */
  predicate Before(members: seq<string>, x: nat, y: nat)
    requires x < |members| && y < |members|
  {
    Strings.Less(members[x], members[y]) || (members[x] == members[y] && x < y)
  }

  lemma BeforeTransitive(members: seq<string>, x: nat, y: nat, z: nat)
    requires x < |members| && y < |members| && z < |members|
    requires Before(members, x, y) && Before(members, y, z)
    ensures Before(members, x, z)
  {
    if Strings.Less(members[x], members[y]) && Strings.Less(members[y], members[z]) {
      Strings.LessTransitive(members[x], members[y], members[z]);
    }
  }

  predicate Indices(members: seq<string>, s: seq<nat>) {
    forall p :: 0 <= p < |s| ==> s[p] < |members|
  }

  predicate SortedBy(members: seq<string>, s: seq<nat>)
    requires Indices(members, s)
  {
    forall p, q :: 0 <= p < q < |s| ==> Before(members, s[p], s[q])
  }

  /** Inserts index `x` after every index whose member id is not larger. */
  function Insert(members: seq<string>, s: seq<nat>, x: nat): (r: seq<nat>)
    requires x < |members| && Indices(members, s)
    ensures |r| == |s| + 1 && Indices(members, r)
    ensures forall y :: y in r <==> y in s || y == x
  {
    if s == [] then [x]
    else if Strings.Less(members[x], members[s[0]]) then [x] + s
    else [s[0]] + Insert(members, s[1..], x)
  }

  lemma InsertFrontSorted(members: seq<string>, s: seq<nat>, x: nat)
    requires x < |members| && Indices(members, s) && SortedBy(members, s)
    requires s != [] && Strings.Less(members[x], members[s[0]])
    ensures SortedBy(members, [x] + s)
  {
    var r := [x] + s;
    forall p, q | 0 <= p < q < |r| ensures Before(members, r[p], r[q]) {
      if p > 0 {
        assert r[p] == s[p - 1] && r[q] == s[q - 1];
      } else if q > 1 {
        assert r[q] == s[q - 1];
        assert Before(members, s[0], s[q - 1]);
        BeforeTransitive(members, x, s[0], s[q - 1]);
      }
    }
  }

  lemma ConsSorted(members: seq<string>, h: nat, t: seq<nat>)
    requires h < |members| && Indices(members, t) && SortedBy(members, t)
    requires forall q :: 0 <= q < |t| ==> Before(members, h, t[q])
    ensures SortedBy(members, [h] + t)
  {
    var r := [h] + t;
    forall p, q | 0 <= p < q < |r| ensures Before(members, r[p], r[q]) {
      assert r[q] == t[q - 1];
      if p > 0 {
        assert r[p] == t[p - 1];
      }
    }
  }

  lemma {:induction false} InsertSorted(members: seq<string>, s: seq<nat>, x: nat)
    requires x < |members| && Indices(members, s) && SortedBy(members, s)
    requires forall p :: 0 <= p < |s| ==> s[p] < x
    ensures SortedBy(members, Insert(members, s, x))
    decreases |s|
  {
    if s == [] {
    } else if Strings.Less(members[x], members[s[0]]) {
      InsertFrontSorted(members, s, x);
    } else {
      var tl := s[1..];
      assert forall p, q :: 0 <= p < q < |tl| ==> tl[p] == s[p + 1] && tl[q] == s[q + 1];
      InsertSorted(members, tl, x);
      var t := Insert(members, tl, x);
      assert Before(members, s[0], x) by {
        if members[x] != members[s[0]] {
          Strings.LessTotal(members[x], members[s[0]]);
        }
      }
      forall q | 0 <= q < |t| ensures Before(members, s[0], t[q]) {
        assert t[q] in t;
        if t[q] != x {
          var i :| 0 <= i < |tl| && tl[i] == t[q];
          assert tl[i] == s[i + 1];
        }
      }
      ConsSorted(members, s[0], t);
    }
  }

  lemma {:induction false} InsertDistinct(members: seq<string>, s: seq<nat>, x: nat)
    requires x < |members| && Indices(members, s) && Ordering.Distinct(s) && x !in s
    ensures Ordering.Distinct(Insert(members, s, x))
    decreases |s|
  {
    if s == [] {
    } else if Strings.Less(members[x], members[s[0]]) {
      Ordering.FreshDistinctCons({}, x, s);
    } else {
      var tl := s[1..];
      assert s == [s[0]] + tl;
      Ordering.FreshDistinctCons({}, s[0], tl);
      assert Ordering.NoneIn(tl, {s[0]});
      assert x !in tl;
      InsertDistinct(members, tl, x);
      var t := Insert(members, tl, x);
      forall k | 0 <= k < |t| ensures t[k] !in {} + {s[0]} {
        assert t[k] in t;
        if t[k] != x {
          var i :| 0 <= i < |tl| && tl[i] == t[k];
        }
      }
      Ordering.FreshDistinctCons({}, s[0], t);
    }
  }

  /** `Arrays.sort` of the indices `0 .. k-1` by member id, stable on equal ids. */
  function SortIndices(members: seq<string>, k: nat): (r: seq<nat>)
    requires k <= |members|
    ensures |r| == k && Indices(members, r)
    ensures forall y: int :: y in r <==> 0 <= y < k
  {
    if k == 0 then [] else Insert(members, SortIndices(members, k - 1), k - 1)
  }

  lemma {:induction false} SortIndicesSorted(members: seq<string>, k: nat)
    requires k <= |members|
    ensures SortedBy(members, SortIndices(members, k))
    ensures Ordering.Distinct(SortIndices(members, k))
  {
    if k > 0 {
      var s := SortIndices(members, k - 1);
      SortIndicesSorted(members, k - 1);
      forall p | 0 <= p < |s| ensures s[p] < k - 1 {
        assert s[p] in s;
      }
      InsertSorted(members, s, k - 1);
      InsertDistinct(members, s, k - 1);
    }
  }

  function Elems(s: seq<nat>): set<nat> {
    set x | x in s
  }

  lemma {:induction false} ElemsDistinct(s: seq<nat>)
    requires Ordering.Distinct(s)
    ensures |Elems(s)| == |s|
  {
    if s != [] {
      Ordering.FreshDistinctCons({}, s[0], s[1..]);
      assert s == [s[0]] + s[1..];
      ElemsDistinct(s[1..]);
      assert Elems(s) == Elems(s[1..]) + {s[0]};
      assert s[0] !in Elems(s[1..]) by {
        forall k | 0 <= k < |s[1..]| ensures s[1..][k] != s[0] {
          assert s[1..][k] == s[k + 1];
        }
      }
    }
  }

  function Total(paid: seq<int>): int {
    100 * Ordering.Sum(paid)
  }

  /** The indices that receive one extra cent: the first `total % n` of the sorted order. */
  function PlusOne(members: seq<string>, paid: seq<int>): (r: set<nat>)
    requires |members| > 0
  {
    var n := |members|;
    Elems(SortIndices(members, n)[..Total(paid) % n])
  }

  /** Member `i`'s share of the expense. */
  function Share(members: seq<string>, paid: seq<int>, i: nat): int
    requires |members| > 0
  {
    Total(paid) / |members| + if i in PlusOne(members, paid) then 1 else 0
  }

  function Shares(members: seq<string>, paid: seq<int>): (r: seq<int>)
    requires |members| > 0
    ensures |r| == |members|
  {
    seq(|members|, i requires 0 <= i < |members| => Share(members, paid, i))
  }

  /** What each member paid minus their share: positive means the member is owed. */
  function Deltas(members: seq<string>, paid: seq<int>): (r: seq<int>)
    requires |members| > 0 && |paid| == |members|
    ensures |r| == |members|
  {
    var s := Shares(members, paid);
    seq(|members|, i requires 0 <= i < |members| => 100 * paid[i] - s[i])
  }

  /** The validity checks of `recordExpense`, in the source's order of effect (any failure ignores the expense). */
  predicate Acceptable(b: Book, members: seq<string>, paid: seq<int>) {
    && |members| > 0 && |members| == |paid|
    && (forall i :: 0 <= i < |members| ==> members[i] in b.users)
    && (forall i :: 0 <= i < |paid| ==> paid[i] >= 0)
    && (exists i :: 0 <= i < |paid| && paid[i] > 0)
  }

  /** Adds each member's delta to their balance (`getOrDefault(uid, 0) + delta`), in list order. */
  function ApplyDeltas(net: map<string, int>, members: seq<string>, deltas: seq<int>): (r: map<string, int>)
    requires |deltas| == |members|
    ensures forall u :: u in r <==> u in net || u in members
    decreases |members|
  {
    if members == [] then net
    else
      var m := members[0];
      var before := if m in net then net[m] else 0;
      ApplyDeltas(net[m := before + deltas[0]], members[1..], deltas[1..])
  }

  /** `recordExpense`: a repeated id is ignored; the id is burned even when the expense is then rejected. */
  function RecordExpense(b: Book, id: int, members: seq<string>, paid: seq<int>): (r: Book)
    ensures r.users == b.users && r.seen == b.seen + {id}
    ensures id in b.seen ==> r == b
    ensures id !in b.seen && !Acceptable(b, members, paid) ==> r.net == b.net
    ensures id !in b.seen && Acceptable(b, members, paid) ==> r.net == ApplyDeltas(b.net, members, Deltas(members, paid))
  {
    if id in b.seen then b
    else
      var b' := b.(seen := b.seen + {id});
      if !Acceptable(b, members, paid) then b'
      else b'.(net := ApplyDeltas(b.net, members, Deltas(members, paid)))
  }

  // ---------------------------------------------------------------------------
  // Properties of a split
  // ---------------------------------------------------------------------------

  lemma SumSnoc(s: seq<int>, k: nat)
    requires k < |s|
    ensures Ordering.Sum(s[..k + 1]) == Ordering.Sum(s[..k]) + s[k]
  {
    assert s[..k + 1] == s[..k] + [s[k]];
    Ordering.SumAppend(s[..k], [s[k]]);
  }

  function Below(plus: set<nat>, k: int): set<nat> {
    set x | x in plus && x < k
  }

  lemma BelowStep(plus: set<nat>, k: nat)
    requires k > 0
    ensures |Below(plus, k)| == |Below(plus, k - 1)| + if k - 1 in plus then 1 else 0
  {
    if k - 1 in plus {
      assert Below(plus, k) == Below(plus, k - 1) + {k - 1};
    } else {
      assert Below(plus, k) == Below(plus, k - 1);
    }
  }

  lemma MulStep(k: int, f: int)
    ensures k * f == (k - 1) * f + f
  {
  }

  /** A prefix of a list of equal parts, some of them one larger, sums to the parts plus the larger ones among them. */
  lemma {:induction false} PartsPrefix(s: seq<int>, f: int, plus: set<nat>, k: nat)
    requires k <= |s|
    requires forall i :: 0 <= i < |s| ==> s[i] == f + if i in plus then 1 else 0
    ensures Ordering.Sum(s[..k]) == k * f + |Below(plus, k)|
  {
    if k == 0 {
      assert Below(plus, 0) == {};
    } else {
      PartsPrefix(s, f, plus, k - 1);
      SumSnoc(s, k - 1);
      BelowStep(plus, k);
      MulStep(k, f);
    }
  }

  /** Exactly `total % n` members receive the extra cent. */
  lemma PlusOneCount(members: seq<string>, paid: seq<int>)
    requires 0 < |members|
    ensures |PlusOne(members, paid)| == Total(paid) % |members|
    ensures forall x :: x in PlusOne(members, paid) ==> x < |members|
  {
    var n := |members|;
    var order := SortIndices(members, n);
    var rem := Total(paid) % n;
    SortIndicesSorted(members, n);
    var pre := order[..rem];
    assert Ordering.Distinct(pre) by {
      forall i, j | 0 <= i < j < |pre| ensures pre[i] != pre[j] {
        assert pre[i] == order[i] && pre[j] == order[j];
      }
    }
    ElemsDistinct(pre);
    forall x | x in PlusOne(members, paid) ensures x < n {
      assert x in pre;
      var i :| 0 <= i < |pre| && pre[i] == x;
      assert order[i] == x;
      assert x in order;
    }
  }

  /** `n` parts of `t / n`, of which `t % n` are one larger, add up to `t`. */
  lemma PartsSum(s: seq<int>, t: int, plus: set<nat>)
    requires 0 < |s|
    requires forall i :: 0 <= i < |s| ==> s[i] == t / |s| + if i in plus then 1 else 0
    requires |plus| == t % |s| && forall x :: x in plus ==> x < |s|
    ensures Ordering.Sum(s) == t
  {
    var n := |s|;
    PartsPrefix(s, t / n, plus, n);
    assert Below(plus, n) == plus;
    assert s[..n] == s;
  }

  lemma SharesParts(members: seq<string>, paid: seq<int>)
    requires 0 < |members|
    ensures forall i :: 0 <= i < |members| ==> Shares(members, paid)[i] == Total(paid) / |members| + if i in PlusOne(members, paid) then 1 else 0
  {
  }

  /** The shares add up to the total: no cent is lost or invented. */
  lemma SharesSum(members: seq<string>, paid: seq<int>)
    requires 0 < |members|
    ensures Ordering.Sum(Shares(members, paid)) == Total(paid)
  {
    SharesParts(members, paid);
    PlusOneCount(members, paid);
    PartsSum(Shares(members, paid), Total(paid), PlusOne(members, paid));
  }

  /** The remainder cents go to the ids that come first: everyone with an extra cent sorts before everyone without. */
  lemma PlusOneGoesFirst(members: seq<string>, paid: seq<int>, i: nat, j: nat)
    requires 0 < |members| && i < |members| && j < |members|
    requires i in PlusOne(members, paid) && j !in PlusOne(members, paid)
    ensures Before(members, i, j)
    ensures Strings.LessEq(members[i], members[j])
  {
    var n := |members|;
    var order := SortIndices(members, n);
    var rem := Total(paid) % n;
    SortIndicesSorted(members, n);
    assert i in order[..rem];
    var p :| 0 <= p < rem && order[..rem][p] == i;
    assert j in order;
    var q :| 0 <= q < n && order[q] == j;
    assert order[p] == i;
  }

  lemma {:induction false} SumScaledDiff(d: seq<int>, a: seq<int>, s: seq<int>)
    requires |d| == |a| == |s|
    requires forall i :: 0 <= i < |d| ==> d[i] == 100 * a[i] - s[i]
    ensures Ordering.Sum(d) == 100 * Ordering.Sum(a) - Ordering.Sum(s)
  {
    if d != [] {
      SumScaledDiff(d[1..], a[1..], s[1..]);
    }
  }

  /** What the members paid and what they owe cancel out. */
  lemma DeltasSumZero(members: seq<string>, paid: seq<int>)
    requires 0 < |members| && |paid| == |members|
    ensures Ordering.Sum(Deltas(members, paid)) == 0
  {
    SharesSum(members, paid);
    SumScaledDiff(Deltas(members, paid), paid, Shares(members, paid));
  }

  /** The deltas of the members with id `u`. */
  function SumFor(members: seq<string>, deltas: seq<int>, u: string): int
    requires |deltas| == |members|
    decreases |members|
  {
    if members == [] then 0
    else (if members[0] == u then deltas[0] else 0) + SumFor(members[1..], deltas[1..], u)
  }

  /** Each user's balance moves by the sum of their own deltas. */
  lemma {:induction false} ApplyDeltasAt(net: map<string, int>, members: seq<string>, deltas: seq<int>, u: string)
    requires |deltas| == |members|
    requires u in net || u in members
    ensures ApplyDeltas(net, members, deltas)[u] == (if u in net then net[u] else 0) + SumFor(members, deltas, u)
    decreases |members|
  {
    if members != [] {
      var m := members[0];
      var before := if m in net then net[m] else 0;
      var net' := net[m := before + deltas[0]];
      if u !in members[1..] {
        assert u in net';
      }
      ApplyDeltasAt(net', members[1..], deltas[1..], u);
    }
  }

  /** Applying the deltas of registered members changes the sum of the balances by their sum. */
  lemma {:induction false} ApplyDeltasSum(net: map<string, int>, members: seq<string>, deltas: seq<int>)
    requires |deltas| == |members|
    requires forall i :: 0 <= i < |members| ==> members[i] in net
    ensures MapSum(ApplyDeltas(net, members, deltas)) == MapSum(net) + Ordering.Sum(deltas)
    decreases |members|
  {
    if members != [] {
      var m := members[0];
      var net' := net[m := net[m] + deltas[0]];
      assert ApplyDeltas(net, members, deltas) == ApplyDeltas(net', members[1..], deltas[1..]);
      MapSumUpdate(net, m, net[m] + deltas[0]);
      assert forall i :: 0 <= i < |members[1..]| ==> members[1..][i] in net';
      ApplyDeltasSum(net', members[1..], deltas[1..]);
    }
  }

  /** Recording an expense keeps every balance registered and the balances summing to zero. */
  lemma RecordPreservesValid(b: Book, id: int, members: seq<string>, paid: seq<int>)
    requires Valid(b)
    ensures Valid(RecordExpense(b, id, members, paid))
  {
    if id !in b.seen && Acceptable(b, members, paid) {
      var d := Deltas(members, paid);
      DeltasSumZero(members, paid);
      ApplyDeltasSum(b.net, members, d);
      var r := ApplyDeltas(b.net, members, d);
      forall u ensures u in r <==> u in b.users {
        if u in members {
          var i :| 0 <= i < |members| && members[i] == u;
        }
      }
    }
  }

  /** An expense id counts once: recording it again, with any content, changes nothing. */
  lemma RecordOnce(b: Book, id: int, members: seq<string>, paid: seq<int>, members': seq<string>, paid': seq<int>)
    ensures RecordExpense(RecordExpense(b, id, members, paid), id, members', paid') == RecordExpense(b, id, members, paid)
  {
  }

  // ---------------------------------------------------------------------------
  // listBalances
  // ---------------------------------------------------------------------------

  datatype Entry = Entry(id: string, cents: int)

  datatype Transfer = Transfer(debtor: string, creditor: string, cents: int)

  /** The users with a negative balance and what they owe, in id order. */
  function Debtors(m: map<string, int>): (r: seq<Entry>)
    ensures forall i :: 0 <= i < |r| ==> r[i].id in m && r[i].cents == -m[r[i].id] > 0
    decreases m.Keys
  {
    if m == map[] then []
    else
      var k := First(m);
      (if m[k] < 0 then [Entry(k, -m[k])] else []) + Debtors(m - {k})
  }

  /** The users with a positive balance and what they are owed, in id order. */
  function Creditors(m: map<string, int>): (r: seq<Entry>)
    ensures forall i :: 0 <= i < |r| ==> r[i].id in m && r[i].cents == m[r[i].id] > 0
    decreases m.Keys
  {
    if m == map[] then []
    else
      var k := First(m);
      (if m[k] > 0 then [Entry(k, m[k])] else []) + Creditors(m - {k})
  }

  /** The ids listed in `es`. */
  function Ids(es: seq<Entry>): (r: set<string>)
    ensures forall i :: 0 <= i < |es| ==> es[i].id in r
  {
    if es == [] then {} else {es[0].id} + Ids(es[1..])
  }

  lemma {:induction false} IdsMember(es: seq<Entry>, x: string)
    requires x in Ids(es)
    ensures exists i :: 0 <= i < |es| && es[i].id == x
  {
    if es[0].id != x {
      IdsMember(es[1..], x);
      var i :| 0 <= i < |es[1..]| && es[1..][i].id == x;
      assert es[i + 1].id == x;
    }
  }

  predicate Positive(es: seq<Entry>) {
    forall i :: 0 <= i < |es| ==> es[i].cents > 0
  }

  predicate IdsIncreasing(es: seq<Entry>) {
    forall i, j :: 0 <= i < j < |es| ==> Strings.Less(es[i].id, es[j].id)
  }

  function SumCents(es: seq<Entry>): int {
    if es == [] then 0 else es[0].cents + SumCents(es[1..])
  }

  /** The cents recorded against `u`. */
  function Owed(es: seq<Entry>, u: string): int {
    if es == [] then 0 else (if es[0].id == u then es[0].cents else 0) + Owed(es[1..], u)
  }

  /** What is left of an entry list after its head is paid: the tail, or the reduced head and the tail. */
  function Left(es: seq<Entry>, left: int): seq<Entry>
    requires es != []
  {
    if left == 0 then es[1..] else [Entry(es[0].id, left)] + es[1..]
  }

  lemma IdsLeft(es: seq<Entry>, left: int)
    requires es != []
    ensures Ids(Left(es, left)) <= Ids(es)
  {
    assert es == [es[0]] + es[1..];
    if left != 0 {
      assert Left(es, left)[1..] == es[1..];
    }
  }

  /** The amount of the next transfer: the smaller of the first debt and the first credit. */
  function Pay(ds: seq<Entry>, cs: seq<Entry>): int
    requires ds != [] && cs != []
  {
    if ds[0].cents < cs[0].cents then ds[0].cents else cs[0].cents
  }

  /** The greedy matching: pay the first debtor's debt to the first creditor, drop whoever is settled, repeat. */
  function Match(ds: seq<Entry>, cs: seq<Entry>): seq<Transfer>
    decreases |ds| + |cs|
  {
    if ds == [] || cs == [] then []
    else
      var pay := Pay(ds, cs);
      [Transfer(ds[0].id, cs[0].id, pay)] + Match(Left(ds, ds[0].cents - pay), Left(cs, cs[0].cents - pay))
  }

  /** One round of the matching: the first transfer, then the matching of what is left. */
  lemma MatchUnfold(ds: seq<Entry>, cs: seq<Entry>)
    requires ds != [] && cs != []
    ensures Match(ds, cs)
         == [Transfer(ds[0].id, cs[0].id, Pay(ds, cs))]
          + Match(Left(ds, ds[0].cents - Pay(ds, cs)), Left(cs, cs[0].cents - Pay(ds, cs)))
  {
  }

  /** Every transfer in `ts` runs from a user in `debtors` to a user in `creditors`. */
  predicate Within(ts: seq<Transfer>, debtors: set<string>, creditors: set<string>) {
    forall k :: 0 <= k < |ts| ==> ts[k].debtor in debtors && ts[k].creditor in creditors
  }

  lemma WithinCons(t: Transfer, rest: seq<Transfer>, debtors: set<string>, creditors: set<string>, debtors': set<string>, creditors': set<string>)
    requires t.debtor in debtors && t.creditor in creditors
    requires debtors' <= debtors && creditors' <= creditors && Within(rest, debtors', creditors')
    ensures Within([t] + rest, debtors, creditors)
  {
    var r := [t] + rest;
    forall k | 0 <= k < |r| ensures r[k].debtor in debtors && r[k].creditor in creditors {
      if k > 0 {
        assert r[k] == rest[k - 1];
      }
    }
  }

  /** Every transfer runs from a listed debtor to a listed creditor. */
  lemma {:induction false} MatchIds(ds: seq<Entry>, cs: seq<Entry>)
    ensures Within(Match(ds, cs), Ids(ds), Ids(cs))
    decreases |ds| + |cs|
  {
    if ds != [] && cs != [] {
      IdsLeft(ds, ds[0].cents - Pay(ds, cs));
      IdsLeft(cs, cs[0].cents - Pay(ds, cs));
      MatchIds(Left(ds, ds[0].cents - Pay(ds, cs)), Left(cs, cs[0].cents - Pay(ds, cs)));
      MatchUnfold(ds, cs);
      WithinCons(Transfer(ds[0].id, cs[0].id, Pay(ds, cs)), Match(Left(ds, ds[0].cents - Pay(ds, cs)), Left(cs, cs[0].cents - Pay(ds, cs))),
                 Ids(ds), Ids(cs), Ids(Left(ds, ds[0].cents - Pay(ds, cs))), Ids(Left(cs, cs[0].cents - Pay(ds, cs))));
    }
  }

  /** The transfers of `listBalances`, before formatting. */
  function Balances(b: Book): seq<Transfer> {
    Match(Debtors(b.net), Creditors(b.net))
  }

  /** Java's `cents / 100 + "." + two-digit pennies`. */
  function Amount(cents: int): string {
    var units := JavaMath.Div(cents, 100);
    var pennies := JavaMath.Rem(cents, 100);
    Strings.IntToString(units) + "." + (if pennies < 10 then "0" else "") + Strings.IntToString(pennies)
  }

  /** The pennies of an amount always take exactly two digits. */
  lemma TwoDigits(p: int)
    requires 0 <= p < 100
    ensures |(if p < 10 then "0" else "") + Strings.IntToString(p)| == 2
    ensures Strings.AllDigits((if p < 10 then "0" else "") + Strings.IntToString(p))
    ensures Strings.DigitsValue((if p < 10 then "0" else "") + Strings.IntToString(p)) == p
  {
    var t := (if p < 10 then "0" else "") + Strings.IntToString(p);
    if p < 10 {
      assert t == ['0', Strings.DigitChar(p)];
      assert t[..1] == "0";
      assert t[..1][..0] == [];
    } else {
      assert Strings.NatToString(p / 10) == [Strings.DigitChar(p / 10)];
      assert Strings.NatToString(p) == Strings.NatToString(p / 10) + [Strings.DigitChar(p % 10)];
      assert t == [Strings.DigitChar(p / 10), Strings.DigitChar(p % 10)];
      assert t[..1] == [Strings.DigitChar(p / 10)];
      assert t[..1][..0] == [];
    }
  }

  /** A non-negative amount prints as whole units, a dot and two digits of pennies, which read back as the cents. */
  lemma AmountFormat(cents: int)
    requires cents >= 0
    ensures |Amount(cents)| >= 4 && Amount(cents)[|Amount(cents)| - 3] == '.'
    ensures Strings.AllDigits(Amount(cents)[..|Amount(cents)| - 3]) && Strings.AllDigits(Amount(cents)[|Amount(cents)| - 2..])
    ensures Strings.DigitsValue(Amount(cents)[..|Amount(cents)| - 3]) * 100 + Strings.DigitsValue(Amount(cents)[|Amount(cents)| - 2..]) == cents
  {
    JavaMath.DivNonNegative(cents, 100);
    var units := Strings.NatToString(cents / 100);
    var tail := (if cents % 100 < 10 then "0" else "") + Strings.IntToString(cents % 100);
    TwoDigits(cents % 100);
    var a := Amount(cents);
    assert a == units + "." + tail;
    assert a[..|a| - 3] == units;
    assert a[|a| - 2..] == tail;
  }

  /** `formatLine`: "<debtor> owes <creditor>: <amount>". */
  function FormatLine(t: Transfer): string {
    t.debtor + " owes " + t.creditor + ": " + Amount(t.cents)
  }

  /** `listBalances`: one formatted line per settling transfer, in the same order. */
  function ListBalances(b: Book): (r: seq<string>)
    ensures |r| == |Balances(b)|
    ensures forall i :: 0 <= i < |r| ==> r[i] == FormatLine(Balances(b)[i])
  {
    var ts := Balances(b);
    seq(|ts|, i requires 0 <= i < |ts| => FormatLine(ts[i]))
  }

  /** Money paid by `u` across a list of transfers. */
  function Paid(ts: seq<Transfer>, u: string): int {
    if ts == [] then 0 else (if ts[0].debtor == u then ts[0].cents else 0) + Paid(ts[1..], u)
  }

  /** Money received by `u` across a list of transfers. */
  function Received(ts: seq<Transfer>, u: string): int {
    if ts == [] then 0 else (if ts[0].creditor == u then ts[0].cents else 0) + Received(ts[1..], u)
  }

  /** Transfer `a` comes before `b`: by debtor id, then by creditor id. */
  predicate PairLess(a: Transfer, b: Transfer) {
    Strings.Less(a.debtor, b.debtor) || (a.debtor == b.debtor && Strings.Less(a.creditor, b.creditor))
  }

  // ---------------------------------------------------------------------------
  // Properties of listBalances
  // ---------------------------------------------------------------------------

  lemma SumCentsCons(e: Entry, t: seq<Entry>)
    ensures SumCents([e] + t) == e.cents + SumCents(t)
    ensures forall u :: Owed([e] + t, u) == (if e.id == u then e.cents else 0) + Owed(t, u)
  {
    assert ([e] + t)[1..] == t;
  }

  /** Debtors and creditors come out in strictly increasing id order. */
  lemma {:induction false} EntriesIncreasing(m: map<string, int>)
    ensures IdsIncreasing(Debtors(m)) && IdsIncreasing(Creditors(m))
    decreases m.Keys
  {
    if m != map[] {
      var k := First(m);
      var rest := m - {k};
      EntriesIncreasing(rest);
      forall y | y in rest ensures Strings.Less(k, y) {
        assert Strings.LessEq(k, y);
      }
      ConsIncreasing(if m[k] < 0 then [Entry(k, -m[k])] else [], Debtors(rest));
      ConsIncreasing(if m[k] > 0 then [Entry(k, m[k])] else [], Creditors(rest));
    }
  }

  lemma ConsIncreasing(h: seq<Entry>, t: seq<Entry>)
    requires |h| <= 1 && IdsIncreasing(t)
    requires forall i, j :: 0 <= i < |h| && 0 <= j < |t| ==> Strings.Less(h[i].id, t[j].id)
    ensures IdsIncreasing(h + t)
  {
    var s := h + t;
    forall i, j | 0 <= i < j < |s| ensures Strings.Less(s[i].id, s[j].id) {
      assert s[j] == t[j - |h|];
      if i >= |h| {
        assert s[i] == t[i - |h|];
      }
    }
  }

  /** Net credit minus net debt is the sum of the balances. */
  lemma {:induction false} EntriesSum(m: map<string, int>)
    ensures SumCents(Creditors(m)) - SumCents(Debtors(m)) == MapSum(m)
    decreases m.Keys
  {
    if m != map[] {
      var k := First(m);
      var rest := m - {k};
      EntriesSum(rest);
      assert MapSum(m) == m[k] + MapSum(rest);
      assert Debtors(m) == (if m[k] < 0 then [Entry(k, -m[k])] else []) + Debtors(rest);
      assert Creditors(m) == (if m[k] > 0 then [Entry(k, m[k])] else []) + Creditors(rest);
      if m[k] < 0 {
        assert Creditors(m) == Creditors(rest);
        SumCentsCons(Entry(k, -m[k]), Debtors(rest));
      } else if m[k] > 0 {
        assert Debtors(m) == Debtors(rest);
        SumCentsCons(Entry(k, m[k]), Creditors(rest));
      } else {
        assert Debtors(m) == Debtors(rest) && Creditors(m) == Creditors(rest);
      }
    }
  }

  /** A user appears among the debtors with exactly their debt. */
  lemma {:induction false} DebtorsOwed(m: map<string, int>, u: string)
    ensures Owed(Debtors(m), u) == if u in m && m[u] < 0 then -m[u] else 0
    decreases m.Keys
  {
    if m != map[] {
      var k := First(m);
      var rest := m - {k};
      DebtorsOwed(rest, u);
      assert u != k ==> (u in rest <==> u in m);
      if m[k] < 0 {
        var e := Entry(k, -m[k]);
        assert Debtors(m) == [e] + Debtors(rest);
        SumCentsCons(e, Debtors(rest));
        assert Owed(Debtors(m), u) == (if k == u then -m[k] else 0) + Owed(Debtors(rest), u);
      } else {
        assert Debtors(m) == Debtors(rest);
      }
    }
  }

  /** A user appears among the creditors with exactly their credit. */
  lemma {:induction false} CreditorsOwed(m: map<string, int>, u: string)
    ensures Owed(Creditors(m), u) == if u in m && m[u] > 0 then m[u] else 0
    decreases m.Keys
  {
    if m != map[] {
      var k := First(m);
      var rest := m - {k};
      CreditorsOwed(rest, u);
      if m[k] > 0 {
        assert Creditors(m) == [Entry(k, m[k])] + Creditors(rest);
        SumCentsCons(Entry(k, m[k]), Creditors(rest));
      } else {
        assert Creditors(m) == Creditors(rest);
      }
    }
  }

  lemma {:induction false} PositiveSum(es: seq<Entry>)
    requires Positive(es)
    ensures SumCents(es) >= 0
    ensures es != [] ==> SumCents(es) > 0
  {
    if es != [] {
      PositiveSum(es[1..]);
    }
  }

  lemma LeftPositive(es: seq<Entry>, left: int)
    requires es != [] && Positive(es) && left >= 0
    ensures Positive(Left(es, left))
  {
    var s := Left(es, left);
    var o := if left == 0 then 1 else 0;
    forall i | 0 <= i < |s| ensures s[i].cents > 0 {
      if i + o > 0 {
        assert s[i] == es[i + o];
      }
    }
  }

  lemma LeftSum(es: seq<Entry>, left: int, u: string)
    requires es != []
    ensures SumCents(Left(es, left)) == SumCents(es) - es[0].cents + left
    ensures Owed(Left(es, left), u) == Owed(es, u) - (if es[0].id == u then es[0].cents - left else 0)
  {
    assert es == [es[0]] + es[1..];
    SumCentsCons(es[0], es[1..]);
    if left != 0 {
      SumCentsCons(Entry(es[0].id, left), es[1..]);
    }
  }

  lemma TransfersCons(t: Transfer, rest: seq<Transfer>, u: string)
    ensures Paid([t] + rest, u) == (if t.debtor == u then t.cents else 0) + Paid(rest, u)
    ensures Received([t] + rest, u) == (if t.creditor == u then t.cents else 0) + Received(rest, u)
  {
    assert ([t] + rest)[1..] == rest;
  }

  /** The first round's transfer counts towards the first debtor and the first creditor. */
  lemma MatchStep(ds: seq<Entry>, cs: seq<Entry>, u: string)
    requires ds != [] && cs != []
    ensures Paid(Match(ds, cs), u)
         == (if ds[0].id == u then Pay(ds, cs) else 0)
          + Paid(Match(Left(ds, ds[0].cents - Pay(ds, cs)), Left(cs, cs[0].cents - Pay(ds, cs))), u)
    ensures Received(Match(ds, cs), u)
         == (if cs[0].id == u then Pay(ds, cs) else 0)
          + Received(Match(Left(ds, ds[0].cents - Pay(ds, cs)), Left(cs, cs[0].cents - Pay(ds, cs))), u)
  {
    MatchUnfold(ds, cs);
    var pay := Pay(ds, cs);
    TransfersCons(Transfer(ds[0].id, cs[0].id, pay), Match(Left(ds, ds[0].cents - pay), Left(cs, cs[0].cents - pay)), u);
  }

  /** What one round leaves behind still has equal, positive totals, and each user's share drops by what the round paid. */
  lemma MatchStepLeft(ds: seq<Entry>, cs: seq<Entry>, u: string)
    requires ds != [] && cs != []
    requires Positive(ds) && Positive(cs) && SumCents(ds) == SumCents(cs)
    ensures Positive(Left(ds, ds[0].cents - Pay(ds, cs))) && Positive(Left(cs, cs[0].cents - Pay(ds, cs)))
    ensures SumCents(Left(ds, ds[0].cents - Pay(ds, cs))) == SumCents(Left(cs, cs[0].cents - Pay(ds, cs)))
    ensures Owed(Left(ds, ds[0].cents - Pay(ds, cs)), u) == Owed(ds, u) - (if ds[0].id == u then Pay(ds, cs) else 0)
    ensures Owed(Left(cs, cs[0].cents - Pay(ds, cs)), u) == Owed(cs, u) - (if cs[0].id == u then Pay(ds, cs) else 0)
  {
    var pay := Pay(ds, cs);
    LeftPositive(ds, ds[0].cents - pay);
    LeftPositive(cs, cs[0].cents - pay);
    LeftSum(ds, ds[0].cents - pay, u);
    LeftSum(cs, cs[0].cents - pay, u);
  }

  /** When total debt equals total credit, the matching pays every debtor's debt and every creditor's credit in full. */
  lemma {:induction false} MatchSettles(ds: seq<Entry>, cs: seq<Entry>, u: string)
    requires Positive(ds) && Positive(cs) && SumCents(ds) == SumCents(cs)
    ensures Paid(Match(ds, cs), u) == Owed(ds, u)
    ensures Received(Match(ds, cs), u) == Owed(cs, u)
    decreases |ds| + |cs|
  {
    if ds == [] || cs == [] {
      PositiveSum(ds);
      PositiveSum(cs);
    } else {
      MatchStep(ds, cs, u);
      MatchStepLeft(ds, cs, u);
      MatchSettles(Left(ds, ds[0].cents - Pay(ds, cs)), Left(cs, cs[0].cents - Pay(ds, cs)), u);
    }
  }

  predicate PrecedesAll(t: Transfer, rest: seq<Transfer>) {
    forall j :: 0 <= j < |rest| ==> PairLess(t, rest[j])
  }

  /** A transfer whose debtor precedes every later debtor, or equals it while its creditor precedes every later creditor, comes first. */
  lemma HeadFirst(t: Transfer, rest: seq<Transfer>, debtors: set<string>, creditors: set<string>, debtorSettled: bool)
    requires Within(rest, debtors, creditors)
    requires forall x :: x in debtors ==> Strings.LessEq(t.debtor, x) && (debtorSettled ==> Strings.Less(t.debtor, x))
    requires forall x :: x in creditors ==> debtorSettled || Strings.Less(t.creditor, x)
    ensures PrecedesAll(t, rest)
  {
    forall j | 0 <= j < |rest| ensures PairLess(t, rest[j]) {
      assert rest[j].debtor in debtors && rest[j].creditor in creditors;
    }
  }

  /** The first transfer comes before every later one: at least one side of it is settled and drops out. */
  lemma MatchHeadFirst(ds: seq<Entry>, cs: seq<Entry>)
    requires ds != [] && cs != [] && IdsIncreasing(ds) && IdsIncreasing(cs)
    ensures PrecedesAll(Transfer(ds[0].id, cs[0].id, Pay(ds, cs)), Match(Left(ds, ds[0].cents - Pay(ds, cs)), Left(cs, cs[0].cents - Pay(ds, cs))))
  {
    MatchIds(Left(ds, ds[0].cents - Pay(ds, cs)), Left(cs, cs[0].cents - Pay(ds, cs)));
    AfterHead(ds, ds[0].cents - Pay(ds, cs));
    AfterHead(cs, cs[0].cents - Pay(ds, cs));
    HeadFirst(Transfer(ds[0].id, cs[0].id, Pay(ds, cs)), Match(Left(ds, ds[0].cents - Pay(ds, cs)), Left(cs, cs[0].cents - Pay(ds, cs))),
              Ids(Left(ds, ds[0].cents - Pay(ds, cs))), Ids(Left(cs, cs[0].cents - Pay(ds, cs))), ds[0].cents == Pay(ds, cs));
  }

  /** The transfers come out sorted by debtor id, then creditor id, without repeating a pair. */
  lemma {:induction false} MatchSorted(ds: seq<Entry>, cs: seq<Entry>)
    requires IdsIncreasing(ds) && IdsIncreasing(cs)
    ensures forall i, j :: 0 <= i < j < |Match(ds, cs)| ==> PairLess(Match(ds, cs)[i], Match(ds, cs)[j])
    decreases |ds| + |cs|
  {
    if ds != [] && cs != [] {
      TailIncreasing(ds, ds[0].cents - Pay(ds, cs));
      TailIncreasing(cs, cs[0].cents - Pay(ds, cs));
      MatchSorted(Left(ds, ds[0].cents - Pay(ds, cs)), Left(cs, cs[0].cents - Pay(ds, cs)));
      MatchHeadFirst(ds, cs);
      MatchUnfold(ds, cs);
      SortedCons(Transfer(ds[0].id, cs[0].id, Pay(ds, cs)), Match(Left(ds, ds[0].cents - Pay(ds, cs)), Left(cs, cs[0].cents - Pay(ds, cs))));
    }
  }

  lemma SortedCons(t: Transfer, rest: seq<Transfer>)
    requires forall i, j :: 0 <= i < j < |rest| ==> PairLess(rest[i], rest[j])
    requires PrecedesAll(t, rest)
    ensures forall i, j :: 0 <= i < j < |[t] + rest| ==> PairLess(([t] + rest)[i], ([t] + rest)[j])
  {
    var r := [t] + rest;
    forall i, j | 0 <= i < j < |r| ensures PairLess(r[i], r[j]) {
      assert r[j] == rest[j - 1];
      if i > 0 {
        assert r[i] == rest[i - 1];
      }
    }
  }

  lemma TailIncreasing(es: seq<Entry>, left: int)
    requires es != [] && IdsIncreasing(es)
    ensures IdsIncreasing(Left(es, left))
  {
    var s := Left(es, left);
    forall i, j | 0 <= i < j < |s| ensures Strings.Less(s[i].id, s[j].id) {
      var o := if left == 0 then 1 else 0;
      assert s[j].id == es[j + o].id;
      assert s[i].id == es[i + o].id;
    }
  }

  /** An id still present after the head is paid is the head's own id (only if the head is not settled) or a later one. */
  lemma AfterHead(es: seq<Entry>, left: int)
    requires es != [] && IdsIncreasing(es)
    ensures forall x :: x in Ids(Left(es, left)) ==> Strings.LessEq(es[0].id, x) && (left == 0 ==> Strings.Less(es[0].id, x))
  {
    var s := Left(es, left);
    var o := if left == 0 then 1 else 0;
    forall x | x in Ids(s) ensures Strings.LessEq(es[0].id, x) && (left == 0 ==> Strings.Less(es[0].id, x)) {
      IdsMember(s, x);
      var i :| 0 <= i < |s| && s[i].id == x;
      if i + o > 0 {
        assert s[i].id == es[i + o].id;
      }
    }
  }

  /** `listBalances` on a ledger whose balances cancel: every debtor pays exactly their debt and every creditor receives exactly their credit. */
  lemma BalancesSettle(b: Book, u: string)
    requires Valid(b)
    ensures Paid(Balances(b), u) == if u in b.net && b.net[u] < 0 then -b.net[u] else 0
    ensures Received(Balances(b), u) == if u in b.net && b.net[u] > 0 then b.net[u] else 0
  {
    EntriesSum(b.net);
    DebtorsOwed(b.net, u);
    CreditorsOwed(b.net, u);
    MatchSettles(Debtors(b.net), Creditors(b.net), u);
  }

  /** `listBalances` lines are sorted by debtor id, then creditor id. */
  lemma BalancesSorted(b: Book)
    ensures forall i, j :: 0 <= i < j < |Balances(b)| ==> PairLess(Balances(b)[i], Balances(b)[j])
  {
    EntriesIncreasing(b.net);
    MatchSorted(Debtors(b.net), Creditors(b.net));
  }
}
