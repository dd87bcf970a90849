/**
 * Sums after value-replacing transactions (q61-replace-transaction-values,
 * Solution.java).
 *
 * A transaction (from, to) replaces every entry equal to `from` by `to`, and
 * the answer after each transaction is the sum of the entries. The solution
 * never rewrites the entries: it keeps a running sum and a count per value.
 * `Replace` and `Apply` are the reference meaning; `SumsAfterTransactions`
 * is the counting algorithm, proved to agree with it.
 */
module TransactionValues {
  import opened Ordering

  /** How many entries equal `v`. */
  function Count(s: seq<int>, v: int): nat {
    if s == [] then 0 else (if s[0] == v then 1 else 0) + Count(s[1..], v)
  }

  lemma {:induction false} CountAppend(s: seq<int>, x: int, v: int)
    ensures Count(s + [x], v) == Count(s, v) + (if x == v then 1 else 0)
    decreases |s|
  {
    if s != [] {
      assert (s + [x])[1..] == s[1..] + [x];
      CountAppend(s[1..], x, v);
    }
  }

  /** One transaction: every entry equal to `from` becomes `to`, the others stay. */
  function Replace(s: seq<int>, from: int, to: int): (r: seq<int>)
    ensures |r| == |s|
    ensures forall i :: 0 <= i < |s| ==> r[i] == if s[i] == from then to else s[i]
  {
    if s == [] then [] else [if s[0] == from then to else s[0]] + Replace(s[1..], from, to)
  }

  /** The entries after a list of transactions, applied in order. */
  function Apply(s: seq<int>, ts: seq<(int, int)>): seq<int>
    decreases |ts|
  {
    if ts == [] then s
    else
      var last := ts[|ts| - 1];
      Replace(Apply(s, ts[..|ts| - 1]), last.0, last.1)
  }

  /** Replacing moves the sum by (to - from) for every entry equal to `from`. */
  lemma {:induction false} ReplaceSum(s: seq<int>, from: int, to: int)
    ensures Sum(Replace(s, from, to)) == Sum(s) + (to - from) * Count(s, from)
    decreases |s|
  {
    if s != [] {
      ReplaceSum(s[1..], from, to);
      assert Replace(s, from, to)[1..] == Replace(s[1..], from, to);
    }
  }

  /** Every `from` turns into a `to`; no other count moves. */
  lemma {:induction false} ReplaceCount(s: seq<int>, from: int, to: int, v: int)
    requires from != to
    ensures Count(Replace(s, from, to), v) ==
              if v == from then 0
              else if v == to then Count(s, to) + Count(s, from)
              else Count(s, v)
    decreases |s|
  {
    if s != [] {
      ReplaceCount(s[1..], from, to, v);
      assert Replace(s, from, to)[1..] == Replace(s[1..], from, to);
    }
  }

  /** A transaction whose `from` does not occur, or equals its `to`, leaves the entries alone. */
  lemma {:induction false} ReplaceNoop(s: seq<int>, from: int, to: int)
    requires from == to || Count(s, from) == 0
    ensures Replace(s, from, to) == s
    decreases |s|
  {
    if s != [] {
      ReplaceNoop(s[1..], from, to);
      assert Replace(s, from, to)[1..] == Replace(s[1..], from, to);
    }
  }

  /** The count for `v` in a count table; an absent value counts zero. */
  function Get(freq: map<int, int>, v: int): int {
    if v in freq then freq[v] else 0
  }

  /** The opening pass: the sum of the entries and how many times each value occurs. */
  method Tally(entries: seq<int>) returns (sum: int, freq: map<int, int>)
    ensures sum == Sum(entries)
    ensures forall v :: Get(freq, v) == Count(entries, v)
  {
    sum := 0;
    freq := map[];
    var k := 0;
    while k < |entries|
      invariant 0 <= k <= |entries|
      invariant sum == Sum(entries[..k])
      invariant forall v :: Get(freq, v) == Count(entries[..k], v)
    {
      var x := entries[k];
      assert entries[..k + 1] == entries[..k] + [x];
      SumAppend(entries[..k], [x]);
      assert Sum([x]) == x + Sum([]);
      var freq' := freq[x := Get(freq, x) + 1];
      forall v ensures Get(freq', v) == Count(entries[..k + 1], v) {
        CountAppend(entries[..k], x, v);
      }
      sum := sum + x;
      freq := freq';
      k := k + 1;
    }
    assert entries[..k] == entries;
  }

  /**
   * One transaction on the running sum and the count table: nothing moves
   * when `from` equals `to` or does not occur; otherwise the sum moves by
   * (to - from) per occurrence and the count of `from` joins that of `to`.
   */
  method Step(ghost cur: seq<int>, sum: int, freq: map<int, int>, from: int, to: int) returns (sum': int, freq': map<int, int>)
    requires sum == Sum(cur)
    requires forall v :: Get(freq, v) == Count(cur, v)
    ensures sum' == Sum(Replace(cur, from, to))
    ensures forall v :: Get(freq', v) == Count(Replace(cur, from, to), v)
  {
    if from == to || from !in freq || freq[from] == 0 {
      ReplaceNoop(cur, from, to);
      return sum, freq;
    }
    var cnt := freq[from];
    ReplaceSum(cur, from, to);
    sum' := sum + (to - from) * cnt;
    freq' := (freq - {from})[to := Get(freq, to) + cnt];
    forall v ensures Get(freq', v) == Count(Replace(cur, from, to), v) {
      ReplaceCount(cur, from, to, v);
    }
  }

  /**
   * `getSumsAfterTransactions`: one answer per transaction, the sum of the
   * entries once that transaction and every earlier one have been applied.
   */
  method SumsAfterTransactions(entries: seq<int>, transactions: seq<(int, int)>) returns (ans: seq<int>)
    ensures |ans| == |transactions|
    ensures forall i :: 0 <= i < |ans| ==> ans[i] == Sum(Apply(entries, transactions[..i + 1]))
  {
    var sum, freq := Tally(entries);
    assert transactions[..0] == [];
    ans := [];
    var i := 0;
    while i < |transactions|
      invariant 0 <= i <= |transactions|
      invariant sum == Sum(Apply(entries, transactions[..i]))
      invariant forall v :: Get(freq, v) == Count(Apply(entries, transactions[..i]), v)
      invariant |ans| == i
      invariant forall j :: 0 <= j < i ==> ans[j] == Sum(Apply(entries, transactions[..j + 1]))
    {
      assert transactions[..i + 1][..i] == transactions[..i];
      sum, freq := Step(Apply(entries, transactions[..i]), sum, freq, transactions[i].0, transactions[i].1);
      ans := ans + [sum];
      i := i + 1;
    }
  }

  /**
   * Each answer is the previous sum moved by (to - from) times the number of
   * entries equal to `from` just before the transaction; so a transaction
   * whose `from` equals its `to` or does not occur repeats the previous sum.
   */
  lemma TransactionDelta(entries: seq<int>, ts: seq<(int, int)>, i: int)
    requires 0 <= i < |ts|
    ensures var before := Apply(entries, ts[..i]);
      Sum(Apply(entries, ts[..i + 1])) == Sum(before) + (ts[i].1 - ts[i].0) * Count(before, ts[i].0)
  {
    assert ts[..i + 1][..i] == ts[..i];
    ReplaceSum(Apply(entries, ts[..i]), ts[i].0, ts[i].1);
  }
}
