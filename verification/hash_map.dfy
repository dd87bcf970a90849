/**
 * `CustomHashMap`: string keys and values kept in separately chained buckets
 * (each chain read head first). After every `put` and `remove` the bucket
 * count is doubled while the load factor, rounded to hundredths, is above the
 * maximum and halved (never below two) while it is below the minimum.
 */
module HashMap {
  import opened Common
  import Strings
  import Ordering
  import JavaMath

  datatype Entry = Entry(key: string, value: string)

  /** The map's state: the bucket chains, `size`, and the two load-factor bounds in hundredths. */
  datatype Table = Table(buckets: seq<seq<Entry>>, size: int, minLf: int, maxLf: int)

  // ---------------------------------------------------------------------------
  // Hashing
  // ---------------------------------------------------------------------------

  /** The letters' positions in the alphabet, `c - 'a' + 1` each. */
  function LetterSum(key: string): int
    decreases |key|
  {
    if key == [] then 0 else LetterSum(key[..|key| - 1]) + (key[|key| - 1] as int - 'a' as int + 1)
  }

  /** `customHash`: the squared length plus the letter positions. */
  function Hash(key: string): int {
    |key| * |key| + LetterSum(key)
  }

  predicate Lowercase(key: string) {
    forall i :: 0 <= i < |key| ==> 'a' <= key[i] <= 'z'
  }

  /** The loop of `customHash` computes the squared length plus the letter positions. */
  method CustomHash(key: string) returns (h: int)
    ensures h == |key| * |key| + LetterSum(key)
  {
    var len := |key|;
    var sum := 0;
    var i := 0;
    while i < len
      invariant 0 <= i <= len
      invariant sum == LetterSum(key[..i])
    {
      assert key[..i + 1][..i] == key[..i];
      sum := sum + (key[i] as int - 'a' as int + 1);
      i := i + 1;
    }
    assert key[..len] == key;
    h := len * len + sum;
  }

  /** On keys of lower-case letters every letter counts 1 to 26, so the hash is never negative. */
  lemma {:induction false} LetterSumBounds(key: string)
    requires Lowercase(key)
    ensures |key| <= LetterSum(key) <= 26 * |key|
    decreases |key|
  {
    if key != [] {
      LetterSumBounds(key[..|key| - 1]);
    }
  }

  /** `bucketIndex`: Java's `h % count`, moved into range when negative. */
  function BucketIndex(key: string, count: int): (r: int)
    requires count > 0
    ensures r == Hash(key) % count
    ensures 0 <= r < count
  {
    JavaMath.RemShifted(Hash(key), count);
    var idx := JavaMath.Rem(Hash(key), count);
    if idx < 0 then idx + count else idx
  }

  // ---------------------------------------------------------------------------
  // Load factor
  // ---------------------------------------------------------------------------

  /**
   * `loadFactor100`: `Math.round(size / count * 100)`, half-up rounding of the
   * exact ratio in hundredths. The bucket count is always a power of two, so
   * the `double` quotient and product are exact.
   */
  function LoadFactor(size: int, count: int): (r: int)
    requires count > 0
    ensures 2 * count * r <= 200 * size + count < 2 * count * (r + 1)
  {
    JavaMath.DivModUnique(200 * size + count, 2 * count, (200 * size + count) / (2 * count), (200 * size + count) % (2 * count));
    (200 * size + count) / (2 * count)
  }

  predicate PowerOfTwo(n: int)
    decreases n
  {
    n == 1 || (n > 1 && n % 2 == 0 && PowerOfTwo(n / 2))
  }

  /** One pass of the `adjustBucketsIfNeeded` loop: the count it rehashes to, or `None` when it stops. */
  function Step(size: int, count: int, minLf: int, maxLf: int): Option<int>
    requires count > 0
  {
    if LoadFactor(size, count) > maxLf then Some(2 * count)
    else if LoadFactor(size, count) < minLf && count > 2 then Some(if count / 2 < 2 then 2 else count / 2)
    else None
  }

  // ---------------------------------------------------------------------------
  // Chains
  // ---------------------------------------------------------------------------

  function Keys(chain: seq<Entry>): set<string> {
    set i | 0 <= i < |chain| :: chain[i].key
  }

  predicate KeysDistinct(chain: seq<Entry>) {
    forall i, j :: 0 <= i < j < |chain| ==> chain[i].key != chain[j].key
  }

  /** The value of the first entry with `key`, walking from the head. */
  function Find(chain: seq<Entry>, key: string): (r: Option<string>)
    ensures r.None? <==> key !in Keys(chain)
    ensures r.Some? ==> Entry(key, r.value) in chain
  {
    if chain == [] then None
    else if chain[0].key == key then Some(chain[0].value)
    else
      assert Keys(chain) == {chain[0].key} + Keys(chain[1..]);
      Find(chain[1..], key)
  }

  /** The first entry with `key` gets the new value. */
  function Update(chain: seq<Entry>, key: string, value: string): (r: seq<Entry>)
    ensures |r| == |chain|
    ensures forall i :: 0 <= i < |r| ==> r[i].key == chain[i].key
  {
    if chain == [] then []
    else if chain[0].key == key then [Entry(key, value)] + chain[1..]
    else [chain[0]] + Update(chain[1..], key, value)
  }

  /** The first entry with `key` is unlinked. */
  function Delete(chain: seq<Entry>, key: string): (r: seq<Entry>)
  {
    if chain == [] then []
    else if chain[0].key == key then chain[1..]
    else [chain[0]] + Delete(chain[1..], key)
  }

  lemma {:induction false} FindUpdate(chain: seq<Entry>, key: string, value: string, k: string)
    ensures Find(Update(chain, key, value), k)
         == if k == key && key in Keys(chain) then Some(value) else Find(chain, k)
    decreases |chain|
  {
    if chain != [] && chain[0].key != key {
      FindUpdate(chain[1..], key, value, k);
      assert Keys(chain) == {chain[0].key} + Keys(chain[1..]);
      assert Update(chain, key, value)[1..] == Update(chain[1..], key, value);
    }
  }

  lemma {:induction false} FindDelete(chain: seq<Entry>, key: string, k: string)
    requires KeysDistinct(chain)
    ensures Find(Delete(chain, key), k) == if k == key then None else Find(chain, k)
    ensures |Delete(chain, key)| == |chain| - if key in Keys(chain) then 1 else 0
    ensures forall i :: 0 <= i < |Delete(chain, key)| ==> Delete(chain, key)[i] in chain
    decreases |chain|
  {
    if chain != [] {
      assert Keys(chain) == {chain[0].key} + Keys(chain[1..]);
      if chain[0].key == key {
        assert key !in Keys(chain[1..]);
      } else {
        FindDelete(chain[1..], key, k);
        assert Delete(chain, key)[1..] == Delete(chain[1..], key);
      }
    }
  }

  lemma UpdateKeys(chain: seq<Entry>, key: string, value: string)
    ensures Keys(Update(chain, key, value)) == Keys(chain)
    ensures KeysDistinct(chain) ==> KeysDistinct(Update(chain, key, value))
  {
    var r := Update(chain, key, value);
    assert forall i :: 0 <= i < |r| ==> r[i].key == chain[i].key;
  }

  lemma KeysCons(e: Entry, t: seq<Entry>)
    ensures Keys([e] + t) == {e.key} + Keys(t)
  {
    var r := [e] + t;
    forall x | x in Keys(r) ensures x in {e.key} + Keys(t) {
      var i :| 0 <= i < |r| && r[i].key == x;
      if i > 0 {
        assert r[i] == t[i - 1];
      }
    }
    forall x | x in Keys(t) ensures x in Keys(r) {
      var i :| 0 <= i < |t| && t[i].key == x;
      assert r[i + 1] == t[i];
    }
    assert r[0] == e;
  }

  /** The head of a chain without repeated keys does not recur in its tail. */
  lemma HeadNotInTail(chain: seq<Entry>)
    requires chain != [] && KeysDistinct(chain)
    ensures chain[0].key !in Keys(chain[1..])
    ensures KeysDistinct(chain[1..])
  {
    var t := chain[1..];
    forall i | 0 <= i < |t| ensures t[i].key != chain[0].key {
      assert t[i] == chain[i + 1];
    }
  }

  lemma DistinctCons(e: Entry, t: seq<Entry>)
    requires KeysDistinct(t) && e.key !in Keys(t)
    ensures KeysDistinct([e] + t)
  {
    var r := [e] + t;
    forall i, j | 0 <= i < j < |r| ensures r[i].key != r[j].key {
      assert r[j] == t[j - 1];
      if i > 0 {
        assert r[i] == t[i - 1];
      }
    }
  }

  /** Deleting an entry leaves a chain of the remaining keys, still without repeats. */
  lemma {:induction false} DeleteKeys(chain: seq<Entry>, key: string)
    requires KeysDistinct(chain)
    ensures Keys(Delete(chain, key)) == Keys(chain) - {key}
    ensures KeysDistinct(Delete(chain, key))
    decreases |chain|
  {
    if chain != [] {
      KeysCons(chain[0], chain[1..]);
      assert [chain[0]] + chain[1..] == chain;
      HeadNotInTail(chain);
      if chain[0].key != key {
        DeleteKeys(chain[1..], key);
        KeysCons(chain[0], Delete(chain[1..], key));
        DistinctCons(chain[0], Delete(chain[1..], key));
      }
    }
  }

  // ---------------------------------------------------------------------------
  // Buckets
  // ---------------------------------------------------------------------------

  /** All entries, bucket by bucket, each chain head first: the order `rehash` walks them in. */
  function Flatten(b: seq<seq<Entry>>): seq<Entry> {
    if b == [] then [] else b[0] + Flatten(b[1..])
  }

  /** Every entry sits in the bucket its key hashes to. */
  predicate Placed(b: seq<seq<Entry>>) {
    |b| > 0 && forall i, j :: 0 <= i < |b| && 0 <= j < |b[i]| ==> BucketIndex(b[i][j].key, |b|) == i
  }

  predicate ChainsDistinct(b: seq<seq<Entry>>) {
    forall i :: 0 <= i < |b| ==> KeysDistinct(b[i])
  }

  /** The representation invariant: at least two buckets, a power of two of them, entries where they hash, no key twice, `size` counting the entries. */
  predicate Valid(t: Table) {
    && |t.buckets| >= 2 && PowerOfTwo(|t.buckets|)
    && Placed(t.buckets) && ChainsDistinct(t.buckets)
    && t.size == |Flatten(t.buckets)|
  }

  /** The value stored under `key`, from the chain of its bucket. */
  function Lookup(t: Table, key: string): Option<string>
    requires |t.buckets| > 0
  {
    Find(t.buckets[BucketIndex(key, |t.buckets|)], key)
  }

  lemma {:induction false} FlattenMember(b: seq<seq<Entry>>, e: Entry)
    ensures e in Flatten(b) <==> exists i :: 0 <= i < |b| && e in b[i]
    decreases |b|
  {
    if b != [] {
      FlattenMember(b[1..], e);
      if e in Flatten(b[1..]) {
        var i :| 0 <= i < |b[1..]| && e in b[1..][i];
        assert e in b[i + 1];
      }
      if exists i :: 0 <= i < |b| && e in b[i] {
        var i :| 0 <= i < |b| && e in b[i];
        if i > 0 {
          assert e in b[1..][i - 1];
        }
      }
    }
  }

  lemma {:induction false} FlattenUpdate(b: seq<seq<Entry>>, i: nat, c: seq<Entry>)
    requires i < |b|
    ensures |Flatten(b[i := c])| == |Flatten(b)| - |b[i]| + |c|
    decreases |b|
  {
    if i > 0 {
      FlattenUpdate(b[1..], i - 1, c);
      assert b[i := c][1..] == b[1..][i - 1 := c];
    }
  }

  lemma KeysAppend(a: seq<Entry>, c: seq<Entry>)
    ensures Keys(a + c) == Keys(a) + Keys(c)
  {
    var r := a + c;
    forall x | x in Keys(r) ensures x in Keys(a) + Keys(c) {
      var i :| 0 <= i < |r| && r[i].key == x;
      if i >= |a| {
        assert r[i] == c[i - |a|];
      }
    }
    forall x | x in Keys(c) ensures x in Keys(r) {
      var i :| 0 <= i < |c| && c[i].key == x;
      assert r[i + |a|] == c[i];
    }
    forall x | x in Keys(a) ensures x in Keys(r) {
      var i :| 0 <= i < |a| && a[i].key == x;
      assert r[i] == a[i];
    }
  }

  lemma DistinctAppend(a: seq<Entry>, c: seq<Entry>)
    requires KeysDistinct(a) && KeysDistinct(c) && Keys(a) !! Keys(c)
    ensures KeysDistinct(a + c)
  {
    var r := a + c;
    forall i, j | 0 <= i < j < |r| ensures r[i].key != r[j].key {
      if j < |a| {
        assert r[i] == a[i] && r[j] == a[j];
      } else if i >= |a| {
        assert r[i] == c[i - |a|] && r[j] == c[j - |a|];
      } else {
        assert r[i] == a[i] && r[j] == c[j - |a|];
        assert r[i].key in Keys(a) && r[j].key in Keys(c);
      }
    }
  }

  /** A chain whose keys avoid those of every bucket avoids those of all the buckets together. */
  lemma {:induction false} DisjointFlatten(c: seq<Entry>, b: seq<seq<Entry>>)
    requires forall i :: 0 <= i < |b| ==> Keys(c) !! Keys(b[i])
    ensures Keys(c) !! Keys(Flatten(b))
    decreases |b|
  {
    if b != [] {
      DisjointFlatten(c, b[1..]);
      KeysAppend(b[0], Flatten(b[1..]));
    }
  }

  /** Buckets whose keys are pairwise disjoint and each without repeats hold no key twice between them. */
  lemma {:induction false} DistinctFlatten(b: seq<seq<Entry>>)
    requires ChainsDistinct(b)
    requires forall i, j :: 0 <= i < j < |b| ==> Keys(b[i]) !! Keys(b[j])
    ensures KeysDistinct(Flatten(b))
    decreases |b|
  {
    if b != [] {
      DistinctFlatten(b[1..]);
      DisjointFlatten(b[0], b[1..]);
      DistinctAppend(b[0], Flatten(b[1..]));
    }
  }

  /** Placement keeps different buckets' keys apart. */
  lemma PlacedSeparated(b: seq<seq<Entry>>)
    requires Placed(b)
    ensures forall i, j :: 0 <= i < j < |b| ==> Keys(b[i]) !! Keys(b[j])
  {
    forall i, j | 0 <= i < j < |b| ensures Keys(b[i]) !! Keys(b[j]) {
      forall x | x in Keys(b[i]) ensures x !in Keys(b[j]) {
        var p :| 0 <= p < |b[i]| && b[i][p].key == x;
        assert BucketIndex(x, |b|) == i;
      }
    }
  }

  lemma ValidDistinct(t: Table)
    requires Valid(t)
    ensures KeysDistinct(Flatten(t.buckets))
  {
    PlacedSeparated(t.buckets);
    DistinctFlatten(t.buckets);
  }

  /** On a chain without repeated keys, finding a value is the same as holding its entry. */
  lemma {:induction false} FindDistinct(chain: seq<Entry>, key: string, value: string)
    requires KeysDistinct(chain)
    ensures Find(chain, key) == Some(value) <==> Entry(key, value) in chain
    decreases |chain|
  {
    if chain != [] {
      HeadNotInTail(chain);
      if chain[0].key == key {
        assert Entry(key, value) in chain <==> chain[0] == Entry(key, value) || Entry(key, value) in chain[1..];
      } else {
        FindDistinct(chain[1..], key, value);
        assert Entry(key, value) in chain <==> Entry(key, value) in chain[1..];
      }
    }
  }

  /** On a valid table, the lookup finds exactly the entries held anywhere, and nothing for a key held nowhere. */
  lemma LookupHeld(t: Table, key: string, value: string)
    requires Valid(t)
    ensures Lookup(t, key) == Some(value) <==> Entry(key, value) in Flatten(t.buckets)
    ensures Lookup(t, key).None? <==> forall e :: e in Flatten(t.buckets) ==> e.key != key
  {
    var b := t.buckets;
    var i := BucketIndex(key, |b|);
    FindDistinct(b[i], key, value);
    FlattenMember(b, Entry(key, value));
    if Entry(key, value) in Flatten(b) {
      var k :| 0 <= k < |b| && Entry(key, value) in b[k];
      var p :| 0 <= p < |b[k]| && b[k][p] == Entry(key, value);
      assert BucketIndex(key, |b|) == k;
    }
    if Lookup(t, key).Some? {
      FlattenMember(b, Entry(key, Lookup(t, key).value));
    } else {
      forall e | e in Flatten(b) ensures e.key != key {
        FlattenMember(b, e);
        var k :| 0 <= k < |b| && e in b[k];
        var p :| 0 <= p < |b[k]| && b[k][p] == e;
        assert BucketIndex(e.key, |b|) == k;
      }
    }
  }

  // ---------------------------------------------------------------------------
  // Rehashing
  // ---------------------------------------------------------------------------

  /** Pushes `e` on the head of the chain its key hashes to. */
  function Place(b: seq<seq<Entry>>, e: Entry): (r: seq<seq<Entry>>)
    requires |b| > 0
    ensures |r| == |b|
  {
    b[BucketIndex(e.key, |b|) := [e] + b[BucketIndex(e.key, |b|)]]
  }

  function RehashInto(es: seq<Entry>, b: seq<seq<Entry>>): (r: seq<seq<Entry>>)
    requires |b| > 0
    ensures |r| == |b|
    decreases |es|
  {
    if es == [] then b else RehashInto(es[1..], Place(b, es[0]))
  }

  /** `rehash`: a fresh array of at least two buckets, filled by walking the old chains in order and pushing each entry on its new chain. */
  function Rehash(t: Table, count: int): (r: Table)
    ensures |r.buckets| == if count < 2 then 2 else count
    ensures r.size == t.size && r.minLf == t.minLf && r.maxLf == t.maxLf
  {
    t.(buckets := Spread(Flatten(t.buckets), if count < 2 then 2 else count))
  }

  /** The walk of `rehash` into `n` empty buckets. */
  function Spread(es: seq<Entry>, n: int): (r: seq<seq<Entry>>)
    requires n > 0
    ensures |r| == n
  {
    RehashInto(es, seq(n, _ => []))
  }

  /** The entries of `es` that hash to bucket `j` of `n`, in order. */
  function Filter(es: seq<Entry>, n: int, j: int): seq<Entry>
    requires n > 0
  {
    if es == [] then [] else (if BucketIndex(es[0].key, n) == j then [es[0]] else []) + Filter(es[1..], n, j)
  }

  function Reverse(es: seq<Entry>): seq<Entry> {
    if es == [] then [] else Reverse(es[1..]) + [es[0]]
  }

  lemma ReverseCons(e: Entry, es: seq<Entry>)
    ensures Reverse([e] + es) == Reverse(es) + [e]
  {
    assert ([e] + es)[1..] == es;
  }

  lemma FilterStep(es: seq<Entry>, n: int, j: int)
    requires n > 0 && es != []
    ensures Reverse(Filter(es, n, j))
         == Reverse(Filter(es[1..], n, j)) + if BucketIndex(es[0].key, n) == j then [es[0]] else []
  {
    if BucketIndex(es[0].key, n) == j {
      ReverseCons(es[0], Filter(es[1..], n, j));
    } else {
      assert Filter(es, n, j) == Filter(es[1..], n, j);
    }
  }

  /** After the walk, bucket `j` holds the entries that hash there, last seen first, above what it held before. */
  lemma {:induction false} RehashIntoBucket(es: seq<Entry>, b: seq<seq<Entry>>, j: int)
    requires |b| > 0 && 0 <= j < |b|
    ensures RehashInto(es, b)[j] == Reverse(Filter(es, |b|, j)) + b[j]
    decreases |es|
  {
    if es != [] {
      RehashIntoBucket(es[1..], Place(b, es[0]), j);
      FilterStep(es, |b|, j);
      assert Place(b, es[0])[j] == (if BucketIndex(es[0].key, |b|) == j then [es[0]] else []) + b[j];
    }
  }

  /** The walk adds exactly the walked entries. */
  lemma {:induction false} RehashIntoSize(es: seq<Entry>, b: seq<seq<Entry>>)
    requires |b| > 0
    ensures |Flatten(RehashInto(es, b))| == |es| + |Flatten(b)|
    decreases |es|
  {
    if es != [] {
      FlattenUpdate(b, BucketIndex(es[0].key, |b|), [es[0]] + b[BucketIndex(es[0].key, |b|)]);
      RehashIntoSize(es[1..], Place(b, es[0]));
    }
  }

  lemma {:induction false} FlattenEmpty(n: nat)
    ensures Flatten(seq(n, _ => [])) == []
    decreases n
  {
    if n > 0 {
      var b: seq<seq<Entry>> := seq(n, _ => []);
      assert b[1..] == seq(n - 1, _ => []);
      FlattenEmpty(n - 1);
    }
  }

  lemma {:induction false} FilterMember(es: seq<Entry>, n: int, j: int, e: Entry)
    requires n > 0
    ensures e in Filter(es, n, j) <==> e in es && BucketIndex(e.key, n) == j
    decreases |es|
  {
    if es != [] {
      FilterMember(es[1..], n, j, e);
      assert es == [es[0]] + es[1..];
    }
  }

  lemma {:induction false} FilterDistinct(es: seq<Entry>, n: int, j: int)
    requires n > 0 && KeysDistinct(es)
    ensures KeysDistinct(Filter(es, n, j)) && Keys(Filter(es, n, j)) <= Keys(es)
    decreases |es|
  {
    if es != [] {
      HeadNotInTail(es);
      FilterDistinct(es[1..], n, j);
      KeysCons(es[0], es[1..]);
      assert [es[0]] + es[1..] == es;
      if BucketIndex(es[0].key, n) == j {
        KeysCons(es[0], Filter(es[1..], n, j));
        DistinctCons(es[0], Filter(es[1..], n, j));
      }
    }
  }

  lemma {:induction false} ReverseMember(es: seq<Entry>, e: Entry)
    ensures e in Reverse(es) <==> e in es
    decreases |es|
  {
    if es != [] {
      ReverseMember(es[1..], e);
      assert es == [es[0]] + es[1..];
    }
  }

  lemma {:induction false} ReverseDistinct(es: seq<Entry>)
    requires KeysDistinct(es)
    ensures KeysDistinct(Reverse(es)) && Keys(Reverse(es)) == Keys(es)
    decreases |es|
  {
    if es != [] {
      HeadNotInTail(es);
      ReverseDistinct(es[1..]);
      KeysCons(es[0], es[1..]);
      assert [es[0]] + es[1..] == es;
      KeysAppend(Reverse(es[1..]), [es[0]]);
      assert Keys([es[0]]) == {es[0].key};
      DistinctAppend(Reverse(es[1..]), [es[0]]);
    }
  }

  lemma SpreadBucket(es: seq<Entry>, n: int, j: int)
    requires n > 0 && 0 <= j < n
    ensures Spread(es, n)[j] == Reverse(Filter(es, n, j))
  {
    RehashIntoBucket(es, seq(n, _ => []), j);
  }

  /** Spreading puts every entry in the bucket its key hashes to. */
  lemma SpreadPlaced(es: seq<Entry>, n: int)
    requires n > 0
    ensures Placed(Spread(es, n))
  {
    var b: seq<seq<Entry>> := Spread(es, n);
    forall i: int, p: int | 0 <= i < n && 0 <= p < |b[i]| ensures BucketIndex(b[i][p].key, n) == i {
      SpreadBucket(es, n, i);
      ReverseMember(Filter(es, n, i), b[i][p]);
      FilterMember(es, n, i, b[i][p]);
    }
  }

  lemma SpreadDistinct(es: seq<Entry>, n: int)
    requires n > 0 && KeysDistinct(es)
    ensures ChainsDistinct(Spread(es, n))
  {
    forall j | 0 <= j < n ensures KeysDistinct(Spread(es, n)[j]) {
      SpreadBucket(es, n, j);
      FilterDistinct(es, n, j);
      ReverseDistinct(Filter(es, n, j));
    }
  }

  lemma SpreadSize(es: seq<Entry>, n: int)
    requires n > 0
    ensures |Flatten(Spread(es, n))| == |es|
  {
    RehashIntoSize(es, seq(n, _ => []));
    FlattenEmpty(n);
  }

  /** Spreading loses and invents no entry. */
  lemma SpreadMember(es: seq<Entry>, n: int, e: Entry)
    requires n > 0
    ensures e in Flatten(Spread(es, n)) <==> e in es
  {
    var b: seq<seq<Entry>> := Spread(es, n);
    var j := BucketIndex(e.key, n);
    FlattenMember(b, e);
    SpreadBucket(es, n, j);
    ReverseMember(Filter(es, n, j), e);
    FilterMember(es, n, j, e);
    if e in Flatten(b) {
      var i :| 0 <= i < n && e in b[i];
      SpreadBucket(es, n, i);
      ReverseMember(Filter(es, n, i), e);
      FilterMember(es, n, i, e);
    }
  }

  /** Rehashing to a power of two keeps the table valid and holding exactly the same entries. */
  lemma RehashValid(t: Table, count: int)
    requires Valid(t) && count >= 2 && PowerOfTwo(count)
    ensures Valid(Rehash(t, count))
    ensures forall e :: e in Flatten(Rehash(t, count).buckets) <==> e in Flatten(t.buckets)
  {
    var es := Flatten(t.buckets);
    ValidDistinct(t);
    SpreadPlaced(es, count);
    SpreadDistinct(es, count);
    SpreadSize(es, count);
    forall e ensures e in Flatten(Spread(es, count)) <==> e in es {
      SpreadMember(es, count, e);
    }
  }

  /** Rehashing changes no lookup. */
  lemma RehashLookup(t: Table, count: int, key: string)
    requires Valid(t) && count >= 2 && PowerOfTwo(count)
    ensures Lookup(Rehash(t, count), key) == Lookup(t, key)
  {
    RehashValid(t, count);
    var r := Rehash(t, count);
    if Lookup(t, key).Some? {
      LookupHeld(t, key, Lookup(t, key).value);
      LookupHeld(r, key, Lookup(t, key).value);
    } else {
      LookupHeld(t, key, "");
      LookupHeld(r, key, "");
      if Lookup(r, key).Some? {
        LookupHeld(r, key, Lookup(r, key).value);
        LookupHeld(t, key, Lookup(r, key).value);
      }
    }
  }

  // ---------------------------------------------------------------------------
  // Resizing
  // ---------------------------------------------------------------------------

  /** The loop of `adjustBucketsIfNeeded` has nothing left to do. */
  predicate Settled(t: Table)
    requires |t.buckets| > 0
  {
    Step(t.size, |t.buckets|, t.minLf, t.maxLf).None?
  }

  lemma LoadFactorPositive(size: int, count: int)
    requires count > 0 && LoadFactor(size, count) >= 1
    ensures count <= 200 * size
  {
    JavaMath.MulAtLeast(LoadFactor(size, count), 2 * count);
  }

  lemma PowerOfTwoHalf(n: int)
    requires PowerOfTwo(n) && n > 2
    ensures n % 2 == 0 && n / 2 >= 2 && PowerOfTwo(n / 2)
  {
  }

  lemma PowerOfTwoDouble(n: int)
    requires PowerOfTwo(n) && n >= 1
    ensures PowerOfTwo(2 * n)
  {
    assert (2 * n) / 2 == n;
  }

  /** The doubling phase of the loop: rehash to twice the buckets while the load factor is above the maximum. */
  function Grow(t: Table): (r: Table)
    requires |t.buckets| > 0 && t.maxLf >= 0
    ensures |r.buckets| >= |t.buckets| && r.size == t.size && r.minLf == t.minLf && r.maxLf == t.maxLf
    ensures LoadFactor(r.size, |r.buckets|) <= r.maxLf
    ensures |r.buckets| > |t.buckets| ==> |r.buckets| % 2 == 0 && LoadFactor(r.size, |r.buckets| / 2) > r.maxLf
    decreases 200 * t.size - |t.buckets|
  {
    if LoadFactor(t.size, |t.buckets|) > t.maxLf then
      LoadFactorPositive(t.size, |t.buckets|);
      Grow(Rehash(t, 2 * |t.buckets|))
    else t
  }

  /** The halving phase of the loop: rehash to half the buckets while the load factor is below the minimum, not above the maximum, and more than two buckets remain. */
  function Shrink(t: Table): (r: Table)
    requires |t.buckets| > 0
    ensures 0 < |r.buckets| <= |t.buckets| && r.size == t.size && r.minLf == t.minLf && r.maxLf == t.maxLf
    ensures LoadFactor(r.size, |r.buckets|) > r.maxLf || !(LoadFactor(r.size, |r.buckets|) < r.minLf && |r.buckets| > 2)
    decreases |t.buckets|
  {
    if LoadFactor(t.size, |t.buckets|) <= t.maxLf && LoadFactor(t.size, |t.buckets|) < t.minLf && |t.buckets| > 2 then
      Shrink(Rehash(t, |t.buckets| / 2))
    else t
  }

  /**
   * `adjustBucketsIfNeeded`: the table once the loop stops, or `None` when it
   * never stops. It never stops when the maximum is negative, or when it
   * doubles to a count it then halves again (or halves to one it then doubles).
   */
  function Adjust(t: Table): (r: Option<Table>)
    requires |t.buckets| > 0
    ensures r.Some? ==> |r.value.buckets| > 0 && Settled(r.value)
    ensures r.Some? ==> r.value.size == t.size && r.value.minLf == t.minLf && r.value.maxLf == t.maxLf
  {
    if LoadFactor(t.size, |t.buckets|) > t.maxLf then
      if t.maxLf < 0 then None
      else
        var g := Grow(t);
        if LoadFactor(g.size, |g.buckets|) < g.minLf && |g.buckets| > 2 then None else Some(g)
    else if LoadFactor(t.size, |t.buckets|) < t.minLf && |t.buckets| > 2 then
      var s := Shrink(t);
      if LoadFactor(s.size, |s.buckets|) > s.maxLf then None else Some(s)
    else Some(t)
  }

  lemma {:induction false} GrowValid(t: Table)
    requires Valid(t) && t.maxLf >= 0
    ensures Valid(Grow(t))
    ensures forall key :: Lookup(Grow(t), key) == Lookup(t, key)
    decreases 200 * t.size - |t.buckets|
  {
    if LoadFactor(t.size, |t.buckets|) > t.maxLf {
      LoadFactorPositive(t.size, |t.buckets|);
      PowerOfTwoDouble(|t.buckets|);
      RehashValid(t, 2 * |t.buckets|);
      forall key ensures Lookup(Rehash(t, 2 * |t.buckets|), key) == Lookup(t, key) {
        RehashLookup(t, 2 * |t.buckets|, key);
      }
      GrowValid(Rehash(t, 2 * |t.buckets|));
    }
  }

  lemma {:induction false} ShrinkValid(t: Table)
    requires Valid(t)
    ensures Valid(Shrink(t))
    ensures forall key :: Lookup(Shrink(t), key) == Lookup(t, key)
    decreases |t.buckets|
  {
    if LoadFactor(t.size, |t.buckets|) <= t.maxLf && LoadFactor(t.size, |t.buckets|) < t.minLf && |t.buckets| > 2 {
      PowerOfTwoHalf(|t.buckets|);
      RehashValid(t, |t.buckets| / 2);
      forall key ensures Lookup(Rehash(t, |t.buckets| / 2), key) == Lookup(t, key) {
        RehashLookup(t, |t.buckets| / 2, key);
      }
      ShrinkValid(Rehash(t, |t.buckets| / 2));
    }
  }

  /** Resizing keeps the table valid and changes no lookup. */
  lemma AdjustValid(t: Table)
    requires Valid(t) && Adjust(t).Some?
    ensures Valid(Adjust(t).value)
    ensures forall key :: Lookup(Adjust(t).value, key) == Lookup(t, key)
  {
    if LoadFactor(t.size, |t.buckets|) > t.maxLf {
      GrowValid(t);
    } else if LoadFactor(t.size, |t.buckets|) < t.minLf && |t.buckets| > 2 {
      ShrinkValid(t);
    }
  }

  /** A table the loop would leave alone is left alone. */
  lemma AdjustSettled(t: Table)
    requires |t.buckets| > 0 && Settled(t)
    ensures Adjust(t) == Some(t)
  {
  }

  /** Halving from a power of two ends at a count whose double the loop would halve. */
  lemma {:induction false} ShrinkLast(t: Table)
    requires |t.buckets| > 2 && PowerOfTwo(|t.buckets|)
    requires LoadFactor(t.size, |t.buckets|) <= t.maxLf && LoadFactor(t.size, |t.buckets|) < t.minLf
    ensures 2 * |Shrink(t).buckets| > 2
    ensures LoadFactor(t.size, 2 * |Shrink(t).buckets|) <= t.maxLf && LoadFactor(t.size, 2 * |Shrink(t).buckets|) < t.minLf
    decreases |t.buckets|
  {
    PowerOfTwoHalf(|t.buckets|);
    var h := Rehash(t, |t.buckets| / 2);
    if LoadFactor(h.size, |h.buckets|) <= h.maxLf && LoadFactor(h.size, |h.buckets|) < h.minLf && |h.buckets| > 2 {
      ShrinkLast(h);
    }
  }

  /** A count the loop halves, whose half the loop doubles, is a cycle. */
  lemma StepCycle(size: int, c: int, minLf: int, maxLf: int)
    requires c > 2 && c % 2 == 0
    requires LoadFactor(size, c) <= maxLf && LoadFactor(size, c) < minLf && LoadFactor(size, c / 2) > maxLf
    ensures Step(size, c, minLf, maxLf) == Some(c / 2)
    ensures Step(size, c / 2, minLf, maxLf) == Some(c)
  {
  }

  /** When `Adjust` gives up, the loop really does run forever: it alternates between two bucket counts. */
  lemma AdjustCycles(t: Table)
    requires Valid(t) && t.maxLf >= 0 && Adjust(t).None?
    ensures exists c :: c > 2 && c % 2 == 0
                     && Step(t.size, c, t.minLf, t.maxLf) == Some(c / 2)
                     && Step(t.size, c / 2, t.minLf, t.maxLf) == Some(c)
  {
    if LoadFactor(t.size, |t.buckets|) > t.maxLf {
      StepCycle(t.size, |Grow(t).buckets|, t.minLf, t.maxLf);
    } else {
      ShrinkLast(t);
      assert 2 * |Shrink(t).buckets| / 2 == |Shrink(t).buckets|;
      StepCycle(t.size, 2 * |Shrink(t).buckets|, t.minLf, t.maxLf);
    }
  }

  /** Bounds of 0.40 and 0.60 already make the loop cycle: three keys in four buckets double to eight, then halve back to four. */
  lemma ResizeCycleExample()
    ensures Step(3, 4, 40, 60) == Some(8)
    ensures Step(3, 8, 40, 60) == Some(4)
  {
    assert LoadFactor(3, 4) == 75;
    assert LoadFactor(3, 8) == 38;
  }

  // ---------------------------------------------------------------------------
  // Operations
  // ---------------------------------------------------------------------------

  /** The constructor: two empty buckets; the bounds arrive already rounded to hundredths. */
  function Init(minLf: int, maxLf: int): (t: Table)
    ensures Valid(t) && |t.buckets| == 2 && t.size == 0
    ensures forall key :: Lookup(t, key).None?
  {
    EmptyBuckets(seq(2, _ => []));
    Table(seq(2, _ => []), 0, minLf, maxLf)
  }

  lemma EmptyBuckets(b: seq<seq<Entry>>)
    requires |b| == 2 && forall i :: 0 <= i < |b| ==> b[i] == []
    ensures Placed(b) && ChainsDistinct(b) && Flatten(b) == [] && PowerOfTwo(|b|)
    ensures forall key :: Find(b[BucketIndex(key, |b|)], key).None?
  {
    assert Flatten(b[1..][1..]) == [];
  }

  /** The chain edit of `put`, before resizing: overwrite the key's entry, or push a new one on its chain. */
  function Write(t: Table, key: string, value: string): (r: Table)
    requires |t.buckets| > 0
    ensures |r.buckets| == |t.buckets| && r.minLf == t.minLf && r.maxLf == t.maxLf
  {
    var i := BucketIndex(key, |t.buckets|);
    if key in Keys(t.buckets[i]) then t.(buckets := t.buckets[i := Update(t.buckets[i], key, value)])
    else t.(buckets := t.buckets[i := [Entry(key, value)] + t.buckets[i]], size := t.size + 1)
  }

  /** `put`: `None` when the resize loop never returns. */
  function Put(t: Table, key: string, value: string): Option<Table>
    requires |t.buckets| > 0
  {
    Adjust(Write(t, key, value))
  }

  /** `get`: the stored value, or the empty string. */
  function Get(t: Table, key: string): string
    requires |t.buckets| > 0
  {
    match Lookup(t, key)
    case Some(v) => v
    case None => ""
  }

  /** The chain edit of `remove`, before resizing: unlink the key's entry. */
  function Unlink(t: Table, key: string): (r: Table)
    requires |t.buckets| > 0
    ensures |r.buckets| == |t.buckets| && r.minLf == t.minLf && r.maxLf == t.maxLf
  {
    var i := BucketIndex(key, |t.buckets|);
    if key in Keys(t.buckets[i]) then t.(buckets := t.buckets[i := Delete(t.buckets[i], key)], size := t.size - 1)
    else t
  }

  /** `remove`: the table and the removed value (empty when absent); `None` when the resize loop never returns. */
  function Remove(t: Table, key: string): Option<(Table, string)>
    requires |t.buckets| > 0
  {
    match Adjust(Unlink(t, key))
    case None => None
    case Some(u) => Some((u, Get(t, key)))
  }

  /** `getBucketKeys`: the keys chained in one bucket, sorted; nothing for an index out of range. */
  function BucketKeys(t: Table, index: int): (r: seq<string>)
    ensures forall i, j :: 0 <= i < j < |r| ==> Strings.Less(r[i], r[j])
    ensures !(0 <= index < |t.buckets|) ==> r == []
    ensures 0 <= index < |t.buckets| ==> forall k :: k in r <==> k in Keys(t.buckets[index])
  {
    if index < 0 || index >= |t.buckets| then [] else Ordering.SortedSet(Keys(t.buckets[index]))
  }

  // ---------------------------------------------------------------------------
  // Properties of the operations
  // ---------------------------------------------------------------------------

  lemma WriteValid(t: Table, key: string, value: string)
    requires Valid(t)
    ensures Valid(Write(t, key, value))
    ensures Write(t, key, value).size == t.size + if Lookup(t, key).None? then 1 else 0
  {
    var b := t.buckets;
    var i := BucketIndex(key, |b|);
    var c := if key in Keys(b[i]) then Update(b[i], key, value) else [Entry(key, value)] + b[i];
    var b': seq<seq<Entry>> := b[i := c];
    assert Write(t, key, value).buckets == b';
    FlattenUpdate(b, i, c);
    if key in Keys(b[i]) {
      UpdateKeys(b[i], key, value);
    } else {
      KeysCons(Entry(key, value), b[i]);
      DistinctCons(Entry(key, value), b[i]);
    }
    forall j: int, p: int | 0 <= j < |b'| && 0 <= p < |b'[j]| ensures BucketIndex(b'[j][p].key, |b'|) == j {
      if j == i {
        assert b'[j][p].key in Keys(c);
      }
    }
  }

  lemma WriteLookup(t: Table, key: string, value: string, k: string)
    requires Valid(t)
    ensures Lookup(Write(t, key, value), k) == if k == key then Some(value) else Lookup(t, k)
  {
    var b := t.buckets;
    var i := BucketIndex(key, |b|);
    if BucketIndex(k, |b|) == i {
      if key in Keys(b[i]) {
        FindUpdate(b[i], key, value, k);
      } else {
        assert ([Entry(key, value)] + b[i])[1..] == b[i];
      }
    }
  }

  lemma UnlinkValid(t: Table, key: string)
    requires Valid(t)
    ensures Valid(Unlink(t, key))
    ensures Unlink(t, key).size == t.size - if Lookup(t, key).Some? then 1 else 0
  {
    var b := t.buckets;
    var i := BucketIndex(key, |b|);
    if key in Keys(b[i]) {
      var c := Delete(b[i], key);
      var b': seq<seq<Entry>> := b[i := c];
      assert Unlink(t, key).buckets == b';
      FlattenUpdate(b, i, c);
      FindDelete(b[i], key, key);
      DeleteKeys(b[i], key);
      forall j: int, p: int | 0 <= j < |b'| && 0 <= p < |b'[j]| ensures BucketIndex(b'[j][p].key, |b'|) == j {
        if j == i {
          assert b'[j][p] in b[i];
        }
      }
    }
  }

  lemma UnlinkLookup(t: Table, key: string, k: string)
    requires Valid(t)
    ensures Lookup(Unlink(t, key), k) == if k == key then None else Lookup(t, k)
  {
    var b := t.buckets;
    var i := BucketIndex(key, |b|);
    if key in Keys(b[i]) && BucketIndex(k, |b|) == i {
      FindDelete(b[i], key, k);
    }
  }

  /** After `put`, `get` of the key gives the new value, every other key is unchanged, a new key adds one to `size`, and the table is valid and settled. */
  lemma PutSpec(t: Table, key: string, value: string)
    requires Valid(t) && Put(t, key, value).Some?
    ensures Valid(Put(t, key, value).value) && Settled(Put(t, key, value).value)
    ensures Get(Put(t, key, value).value, key) == value
    ensures forall k :: k != key ==> Get(Put(t, key, value).value, k) == Get(t, k)
    ensures Put(t, key, value).value.size == t.size + if Lookup(t, key).None? then 1 else 0
  {
    WriteValid(t, key, value);
    AdjustValid(Write(t, key, value));
    forall k ensures Lookup(Put(t, key, value).value, k) == if k == key then Some(value) else Lookup(t, k) {
      WriteLookup(t, key, value, k);
    }
  }

  /** `remove` returns what `get` returned before, after which the key is absent, every other key unchanged, and `size` one lower exactly when the key was present. */
  lemma RemoveSpec(t: Table, key: string)
    requires Valid(t) && Remove(t, key).Some?
    ensures Remove(t, key).value.1 == Get(t, key)
    ensures Valid(Remove(t, key).value.0) && Settled(Remove(t, key).value.0)
    ensures Lookup(Remove(t, key).value.0, key).None?
    ensures forall k :: k != key ==> Lookup(Remove(t, key).value.0, k) == Lookup(t, k)
    ensures Remove(t, key).value.0.size == t.size - if Lookup(t, key).Some? then 1 else 0
  {
    UnlinkValid(t, key);
    AdjustValid(Unlink(t, key));
    forall k ensures Lookup(Remove(t, key).value.0, k) == if k == key then None else Lookup(t, k) {
      UnlinkLookup(t, key, k);
    }
  }

  /** Removing an absent key from a settled table changes nothing. */
  lemma RemoveAbsent(t: Table, key: string)
    requires Valid(t) && Settled(t) && Lookup(t, key).None?
    ensures Remove(t, key) == Some((t, ""))
  {
    AdjustSettled(t);
  }

  /** A bucket's sorted keys are as many as its chain's entries. */
  lemma BucketKeysCount(t: Table, index: int)
    requires Valid(t) && 0 <= index < |t.buckets|
    ensures |BucketKeys(t, index)| == |t.buckets[index]|
  {
    DistinctKeysCount(t.buckets[index]);
  }

  lemma {:induction false} DistinctKeysCount(chain: seq<Entry>)
    requires KeysDistinct(chain)
    ensures |Keys(chain)| == |chain|
    decreases |chain|
  {
    if chain != [] {
      HeadNotInTail(chain);
      DistinctKeysCount(chain[1..]);
      KeysCons(chain[0], chain[1..]);
      assert [chain[0]] + chain[1..] == chain;
    }
  }
}
