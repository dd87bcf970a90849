/**
 * A bounded string cache with a pluggable eviction policy
 * (q48-custom-cache, Solution.java: class CacheBuilder).
 *
 * Inserting a NEW key that takes the cache past its capacity evicts one key,
 * chosen by the policy from the keys present after the insertion (so the new
 * key itself may be the one evicted). REMOVE-LARGEST-POLICY picks the longest
 * key, REMOVE-HEAVIEST-POLICY the key with the largest letter weight
 * (a = A = 1 … z = Z = 26); both break ties in favour of the
 * lexicographically smallest key.
 */
module CustomCache {
  import opened Common
  import Strings
  import opened Ordering

  datatype Policy = Largest | Heaviest

  datatype Cache = Cache(capacity: int, policy: Policy, entries: map<string, string>)

  datatype CacheError = UnknownPolicy(name: string)

  /** `EvictionPolicies.from`: the two policy names, anything else is an error. */
  function PolicyFrom(name: string): (r: Result<Policy, CacheError>)
    ensures r == Ok(Largest) <==> name == "REMOVE-LARGEST-POLICY"
    ensures r == Ok(Heaviest) <==> name == "REMOVE-HEAVIEST-POLICY"
    ensures r.Err? ==> r.error == UnknownPolicy(name)
  {
    if name == "REMOVE-LARGEST-POLICY" then Ok(Largest)
    else if name == "REMOVE-HEAVIEST-POLICY" then Ok(Heaviest)
    else Err(UnknownPolicy(name))
  }

  /** `new CacheBuilder(capacity, evictionPolicy)`: an empty cache; an unknown policy name is an error. */
  function Create(capacity: int, name: string): (r: Result<Cache, CacheError>)
    ensures r.Ok? <==> PolicyFrom(name).Ok?
    ensures r.Ok? ==> r.value.entries == map[] && r.value.capacity == capacity && r.value.policy == PolicyFrom(name).value
    ensures r.Err? ==> r.error == UnknownPolicy(name)
  {
    match PolicyFrom(name)
    case Ok(p) => Ok(Cache(capacity, p, map[]))
    case Err(e) => Err(e)
  }

  // ---------------------------------------------------------------------------
  // The eviction order
  // ---------------------------------------------------------------------------

  /** A letter's weight, upper and lower case alike; anything else weighs nothing. */
  function CharWeight(c: char): (w: int)
    ensures 0 <= w <= 26
    ensures w > 0 <==> Strings.IsLowerLetter(c) || Strings.IsUpper(c)
  {
    if 'a' <= c <= 'z' then c as int - 'a' as int + 1
    else if 'A' <= c <= 'Z' then c as int - 'A' as int + 1
    else 0
  }

  /** `weight`: the sum of the letter weights of a key. */
  function Weight(key: string): (w: nat)
    ensures w <= 26 * |key|
  {
    if key == [] then 0 else Weight(key[..|key| - 1]) + CharWeight(key[|key| - 1])
  }

  /** Weight ignores letter case. */
  lemma {:induction false} WeightIgnoresCase(key: string)
    ensures Weight(Strings.ToLower(key)) == Weight(key)
  {
    if key != [] {
      var low := Strings.ToLower(key);
      var init := key[..|key| - 1];
      assert low[..|low| - 1] == Strings.ToLower(init);
      WeightIgnoresCase(init);
    }
  }

  /** The quantity a policy evicts the largest of. */
  function Size(p: Policy, key: string): int {
    match p
    case Largest => |key|
    case Heaviest => Weight(key)
  }

  /** The rank of a key: the key that ranks first is evicted first. */
  function Rank(p: Policy): string -> int {
    k => -Size(p, k)
  }

  /** The key a policy evicts from a non-empty key set. */
  function Victim(p: Policy, keys: set<string>): (v: string)
    requires keys != {}
    ensures v in keys
    ensures forall y :: y in keys ==> Size(p, y) < Size(p, v) || (Size(p, y) == Size(p, v) && Strings.LessEq(v, y))
  {
    var v := Least(Rank(p), keys);
    assert forall y :: y in keys ==> KeyLe(Rank(p), v, y);
    v
  }

  /** The keys a sequence holds. */
  function Elements(s: seq<string>): (r: set<string>)
    ensures forall x :: x in r <==> x in s
    ensures s != [] ==> s[0] in r
  {
    set x | x in s
  }

  /** `selectKeyToEvict`: the scan over the keys in whatever order the hash map yields them; the result never depends on that order. */
  method SelectKeyToEvict(p: Policy, keys: seq<string>) returns (best: Option<string>)
    ensures keys == [] <==> best.None?
    ensures best.Some? ==> best.value == Victim(p, Elements(keys))
  {
    if keys == [] {
      return None;
    }
    var b := keys[0];
    var bestSize := Size(p, b);
    var i := 1;
    KeyLeTotal(Rank(p), b, b);
    assert Elements(keys[..1]) == {b};
    while i < |keys|
      invariant 1 <= i <= |keys|
      invariant bestSize == Size(p, b)
      invariant IsLeast(Rank(p), b, Elements(keys[..i]))
    {
      var k := keys[i];
      var prev := b;
      var size := Size(p, k);
      if size > bestSize {
        b, bestSize := k, size;
      } else if size == bestSize && Strings.Less(k, b) {
        b := k;
      }
      assert keys[..i + 1] == keys[..i] + [k];
      KeyLeTotal(Rank(p), prev, k);
      KeyLeTotal(Rank(p), k, k);
      assert b == k ==> KeyLe(Rank(p), k, prev);
      assert b == prev ==> KeyLe(Rank(p), prev, k);
      forall y | y in Elements(keys[..i + 1])
        ensures KeyLe(Rank(p), b, y)
      {
        if y != k {
          assert y in keys[..i];
          if b == k {
            KeyLeTransitive(Rank(p), k, prev, y);
          }
        }
      }
      i := i + 1;
    }
    assert keys[..i] == keys;
    LeastUnique(Rank(p), Elements(keys));
    best := Some(b);
  }

  // ---------------------------------------------------------------------------
  // The cache operations
  // ---------------------------------------------------------------------------

  /** `get`: the stored value, or the empty string for a missing key. */
  function Get(c: Cache, key: string): (v: string)
    ensures key !in c.entries ==> v == ""
    ensures key in c.entries ==> v == c.entries[key]
  {
    if key in c.entries then c.entries[key] else ""
  }

  /** `put`: insert or update; a new key that takes the cache past capacity evicts the policy's victim. */
  function Put(c: Cache, key: string, value: string): (r: Cache)
    ensures r.capacity == c.capacity && r.policy == c.policy
    ensures key in c.entries ==> r.entries == c.entries[key := value]
    ensures key !in c.entries && |c.entries| + 1 <= c.capacity ==> r.entries == c.entries[key := value]
    ensures key !in c.entries && |c.entries| + 1 > c.capacity ==>
              r.entries == c.entries[key := value] - {Victim(c.policy, c.entries.Keys + {key})}
  {
    var entries := c.entries[key := value];
    if key !in c.entries && |entries| > c.capacity then
      assert entries.Keys == c.entries.Keys + {key};
      c.(entries := entries - {Victim(c.policy, entries.Keys)})
    else c.(entries := entries)
  }

  /** `nextEvictionKey`: the key a new insertion past capacity would evict now, or "" for an empty cache. */
  function NextEvictionKey(c: Cache): (k: string)
    ensures c.entries == map[] ==> k == ""
    ensures c.entries != map[] ==> k in c.entries && k == Victim(c.policy, c.entries.Keys)
  {
    if c.entries == map[] then ""
    else
      assert c.entries.Keys != {} by {
        var x :| x in c.entries;
      }
      Victim(c.policy, c.entries.Keys)
  }

  /** `remove`: true exactly when the key was present; it is gone afterwards and nothing else changes. */
  function Remove(c: Cache, key: string): (r: (Cache, bool))
    ensures r.1 <==> key in c.entries
    ensures r.0 == c.(entries := c.entries - {key})
  {
    (c.(entries := c.entries - {key}), key in c.entries)
  }

  // ---------------------------------------------------------------------------
  // Properties
  // ---------------------------------------------------------------------------

  /** The size bound the cache keeps: at most `capacity` entries (none for a capacity below one). */
  predicate Bounded(c: Cache) {
    |c.entries| <= (if c.capacity < 0 then 0 else c.capacity)
  }

  lemma CreateBounded(capacity: int, name: string)
    requires Create(capacity, name).Ok?
    ensures Bounded(Create(capacity, name).value)
  {
  }

  /** Puts and removes keep the cache within its capacity. */
  lemma PutBounded(c: Cache, key: string, value: string)
    requires Bounded(c)
    ensures Bounded(Put(c, key, value)) && Bounded(Remove(c, key).0)
  {
    var entries := c.entries[key := value];
    if key !in c.entries {
      assert entries.Keys == c.entries.Keys + {key};
      if |entries| > c.capacity {
        var v := Victim(c.policy, entries.Keys);
        assert (entries - {v}).Keys == entries.Keys - {v};
      }
    }
  }

  /** Updating an existing key never evicts: every key stays and only that value changes. */
  lemma UpdateNeverEvicts(c: Cache, key: string, value: string, other: string)
    requires key in c.entries
    ensures Put(c, key, value).entries.Keys == c.entries.Keys
    ensures Get(Put(c, key, value), key) == value
    ensures other != key ==> Get(Put(c, key, value), other) == Get(c, other)
  {
  }

  /** A new key past capacity evicts exactly one key, so the entry count stays the same. */
  lemma NewKeyEvictsOne(c: Cache, key: string, value: string)
    requires key !in c.entries && |c.entries| + 1 > c.capacity
    ensures var r := Put(c, key, value);
            && |r.entries| == |c.entries|
            && r.entries.Keys == c.entries.Keys + {key} - {Victim(c.policy, c.entries.Keys + {key})}
  {
    var entries := c.entries[key := value];
    var v := Victim(c.policy, c.entries.Keys + {key});
    assert entries.Keys == c.entries.Keys + {key};
    assert (entries - {v}).Keys == entries.Keys - {v};
  }

  /** A put followed by a get returns the new value unless the new key was itself the one evicted. */
  lemma PutThenGet(c: Cache, key: string, value: string)
    ensures key in Put(c, key, value).entries ==> Get(Put(c, key, value), key) == value
    ensures key !in Put(c, key, value).entries <==>
              key !in c.entries && |c.entries| + 1 > c.capacity && Victim(c.policy, c.entries.Keys + {key}) == key
  {
  }

  /** Asking for the next victim changes nothing, and a new key past capacity evicts exactly the key it would name after the insertion. */
  lemma NextEvictionKeyPredicts(c: Cache, key: string, value: string)
    requires key !in c.entries && |c.entries| + 1 > c.capacity
    ensures var grown := c.(entries := c.entries[key := value]);
            Put(c, key, value).entries == grown.entries - {NextEvictionKey(grown)}
  {
    assert c.entries[key := value].Keys == c.entries.Keys + {key};
  }
}
