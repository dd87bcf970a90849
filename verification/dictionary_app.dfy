/**
 * The dictionary app (q-26-dictionary-app, DictionaryApp.java).
 *
 * Words map to meanings. Besides the map, the dictionary keeps every word in
 * a sorted set (for prefix search) and in a bucket per word length (for
 * wildcard lookups, where '.' in a pattern stands for any one character).
 */
module DictionaryApp {
  import opened Strings
  import opened Ordering

  datatype Dictionary = Dictionary(dict: map<string, string>, wordsSorted: set<string>, wordsByLen: map<int, set<string>>)

  /** The sorted set and the length buckets hold exactly the stored words, each in the bucket of its length. */
  predicate Valid(d: Dictionary) {
    d.wordsSorted == d.dict.Keys &&
    (forall len :: len in d.wordsByLen ==> forall w :: w in d.wordsByLen[len] ==> w in d.dict && |w| == len) &&
    (forall w :: w in d.dict ==> |w| in d.wordsByLen && w in d.wordsByLen[|w|])
  }

  /** The constructor: nothing stored. */
  function NewDictionary(): (d: Dictionary)
    ensures Valid(d) && d.dict == map[]
  {
    Dictionary(map[], {}, map[])
  }

  /** `storeWord`: the meaning is set or overwritten; a new word also joins the sorted set and its length bucket. */
  function StoreWord(d: Dictionary, word: string, meaning: string): (r: Dictionary)
    ensures r.dict == d.dict[word := meaning]
    ensures word in d.dict ==> r.wordsSorted == d.wordsSorted && r.wordsByLen == d.wordsByLen
    ensures Valid(d) ==> Valid(r)
  {
    var isNew := word !in d.dict;
    var dict := d.dict[word := meaning];
    if isNew then
      var len := |word|;
      var bucket := if len in d.wordsByLen then d.wordsByLen[len] else {};
      Dictionary(dict, d.wordsSorted + {word}, d.wordsByLen[len := bucket + {word}])
    else
      Dictionary(dict, d.wordsSorted, d.wordsByLen)
  }

  /** `getMeaning`: the stored meaning, or "" for a word never stored. */
  function GetMeaning(d: Dictionary, word: string): (r: string)
    ensures word in d.dict ==> r == d.dict[word]
    ensures word !in d.dict ==> r == ""
  {
    if word in d.dict then d.dict[word] else ""
  }

  /** The last meaning stored for a word is the one read back, and other words keep theirs. */
  lemma StoreThenGet(d: Dictionary, word: string, meaning: string, other: string)
    ensures GetMeaning(StoreWord(d, word, meaning), word) == meaning
    ensures other != word ==> GetMeaning(StoreWord(d, word, meaning), other) == GetMeaning(d, other)
  {
  }

  // ---------------------------------------------------------------------------
  // Prefix search
  // ---------------------------------------------------------------------------

  /** `w.startsWith(p)`. */
  predicate HasPrefix(w: string, p: string) {
    |p| <= |w| && w[..|p|] == p
  }

  /** The words at or after `prefix` in order: the `tailSet(prefix, true)` view of the sorted words. */
  function TailFrom(ws: seq<string>, prefix: string): (r: seq<string>)
    ensures forall x :: x in r <==> x in ws && LessEq(prefix, x)
    decreases |ws|
  {
    if ws == [] then []
    else (if LessEq(prefix, ws[0]) then [ws[0]] else []) + TailFrom(ws[1..], prefix)
  }

  /** The scan of the tail: words are added while they start with the prefix, until `limit` of them. */
  function Scan(ws: seq<string>, prefix: string, limit: int): (r: seq<string>)
    requires limit >= 1
    decreases |ws|
  {
    if ws == [] || !HasPrefix(ws[0], prefix) then []
    else if limit == 1 then [ws[0]]
    else [ws[0]] + Scan(ws[1..], prefix, limit - 1)
  }

  /** `searchWords`: at most max(1, n) words, ascending, from the scan of the sorted words from `prefix` on. */
  function SearchWords(d: Dictionary, prefix: string, n: int): seq<string> {
    var limit := if n < 1 then 1 else n;
    Scan(TailFrom(SortedSet(d.wordsSorted), prefix), prefix, limit)
  }

  /** The words of a sequence that start with `prefix`, in order. */
  function WithPrefix(ws: seq<string>, prefix: string): (r: seq<string>)
    ensures forall x :: x in r <==> x in ws && HasPrefix(x, prefix)
    decreases |ws|
  {
    if ws == [] then []
    else (if HasPrefix(ws[0], prefix) then [ws[0]] else []) + WithPrefix(ws[1..], prefix)
  }

  function Take(ws: seq<string>, k: int): seq<string> {
    if k <= 0 then [] else if k >= |ws| then ws else ws[..k]
  }

  /**
   * The search returns the stored words with the prefix, in ascending order,
   * cut to max(1, n): stopping at the first word of the tail without the
   * prefix loses none of them.
   */
  lemma SearchIsFiltered(d: Dictionary, prefix: string, n: int)
    ensures var limit := if n < 1 then 1 else n;
      SearchWords(d, prefix, n) == Take(WithPrefix(SortedSet(d.wordsSorted), prefix), limit)
  {
    var ws := SortedSet(d.wordsSorted);
    var limit := if n < 1 then 1 else n;
    TailRising(ws, prefix);
    ScanIsFiltered(TailFrom(ws, prefix), prefix, limit);
    TailKeepsPrefixed(ws, prefix);
  }

  /** The search gives at most max(1, n) stored words, all with the prefix, in strictly ascending order. */
  lemma SearchResult(d: Dictionary, prefix: string, n: int)
    ensures var r := SearchWords(d, prefix, n);
      |r| <= (if n < 1 then 1 else n) && Rising(r) &&
      forall x :: x in r ==> x in d.wordsSorted && HasPrefix(x, prefix)
  {
    var ws := SortedSet(d.wordsSorted);
    var limit := if n < 1 then 1 else n;
    SearchIsFiltered(d, prefix, n);
    WithPrefixRising(ws, prefix);
    TakeFacts(WithPrefix(ws, prefix), limit);
  }

  lemma TakeFacts(f: seq<string>, k: int)
    requires k >= 1
    ensures |Take(f, k)| <= k && (forall x :: x in Take(f, k) ==> x in f)
    ensures Rising(f) ==> Rising(Take(f, k))
  {
  }

  lemma {:induction false} WithPrefixRising(ws: seq<string>, prefix: string)
    requires Rising(ws)
    ensures Rising(WithPrefix(ws, prefix))
    decreases |ws|
  {
    if ws != [] {
      WithPrefixRising(ws[1..], prefix);
      var rest := WithPrefix(ws[1..], prefix);
      forall k | 0 <= k < |rest| ensures Less(ws[0], rest[k]) {
        assert rest[k] in ws[1..];
      }
    }
  }

  /** Strictly ascending in the order of `String.compareTo`. */
  predicate Rising(ws: seq<string>) {
    forall i, j :: 0 <= i < j < |ws| ==> Less(ws[i], ws[j])
  }

  lemma {:induction false} TailRising(ws: seq<string>, prefix: string)
    requires Rising(ws)
    ensures Rising(TailFrom(ws, prefix))
    ensures forall k :: 0 <= k < |TailFrom(ws, prefix)| ==> LessEq(prefix, TailFrom(ws, prefix)[k])
    decreases |ws|
  {
    if ws != [] {
      TailRising(ws[1..], prefix);
      var rest := TailFrom(ws[1..], prefix);
      forall k | 0 <= k < |rest| ensures Less(ws[0], rest[k]) {
        assert rest[k] in ws[1..];
      }
    }
  }

  /** Dropping the words before `prefix` keeps every word that starts with it. */
  lemma {:induction false} TailKeepsPrefixed(ws: seq<string>, prefix: string)
    ensures WithPrefix(TailFrom(ws, prefix), prefix) == WithPrefix(ws, prefix)
    decreases |ws|
  {
    if ws != [] {
      TailKeepsPrefixed(ws[1..], prefix);
      if HasPrefix(ws[0], prefix) {
        PrefixComesFirst(prefix, ws[0]);
      }
      WithPrefixAppend((if LessEq(prefix, ws[0]) then [ws[0]] else []), TailFrom(ws[1..], prefix), prefix);
    }
  }

  lemma {:induction false} WithPrefixAppend(a: seq<string>, b: seq<string>, prefix: string)
    ensures WithPrefix(a + b, prefix) == WithPrefix(a, prefix) + WithPrefix(b, prefix)
    decreases |a|
  {
    if a != [] {
      WithPrefixAppend(a[1..], b, prefix);
      assert (a + b)[1..] == a[1..] + b;
      var h := if HasPrefix(a[0], prefix) then [a[0]] else [];
      assert WithPrefix(a + b, prefix) == h + WithPrefix(a[1..] + b, prefix);
      assert WithPrefix(a, prefix) == h + WithPrefix(a[1..], prefix);
    } else {
      assert a + b == b;
    }
  }

  /** A word is never before its own prefix. */
  lemma {:induction false} PrefixComesFirst(p: string, w: string)
    requires HasPrefix(w, p)
    ensures LessEq(p, w)
    decreases |p|
  {
    if p == [] {
      assert w == [] || Less(p, w);
    } else if |p| == |w| {
      assert w == w[..|p|];
    } else {
      assert w[0] == p[0];
      assert w[1..][..|p| - 1] == p[1..];
      PrefixComesFirst(p[1..], w[1..]);
      assert Less(p[1..], w[1..]);
    }
  }

  /** A word between a prefix and a word starting with it starts with it too. */
  lemma {:induction false} PrefixBetween(p: string, w: string, v: string)
    requires LessEq(p, w) && Less(w, v) && HasPrefix(v, p)
    ensures HasPrefix(w, p)
    decreases |p|
  {
    if p != [] && p != w {
      assert v[0] == p[0];
      assert w[0] == p[0];
      assert v[1..][..|p| - 1] == p[1..];
      PrefixBetween(p[1..], w[1..], v[1..]);
      assert w[..|p|] == [w[0]] + w[1..][..|p| - 1];
    }
  }

  /**
   * On ascending words that all come at or after `prefix`, the scan that
   * stops at the first word without the prefix gives the first `limit` words with it.
   */
  lemma {:induction false} ScanIsFiltered(ws: seq<string>, prefix: string, limit: int)
    requires limit >= 1 && Rising(ws)
    requires forall k :: 0 <= k < |ws| ==> LessEq(prefix, ws[k])
    ensures Scan(ws, prefix, limit) == Take(WithPrefix(ws, prefix), limit)
    decreases |ws|
  {
    if ws != [] {
      if HasPrefix(ws[0], prefix) {
        ScanIsFiltered(ws[1..], prefix, if limit == 1 then 1 else limit - 1);
        TakeCons(ws[0], WithPrefix(ws[1..], prefix), limit);
      } else {
        forall k | 0 <= k < |ws[1..]| ensures !HasPrefix(ws[1..][k], prefix) {
          if HasPrefix(ws[1..][k], prefix) {
            PrefixBetween(prefix, ws[0], ws[1..][k]);
          }
        }
        NoneWithPrefix(ws[1..], prefix);
      }
    }
  }

  lemma TakeCons(x: string, rest: seq<string>, limit: int)
    requires limit >= 1
    ensures Take([x] + rest, limit) == if limit == 1 then [x] else [x] + Take(rest, limit - 1)
  {
  }

  lemma {:induction false} NoneWithPrefix(ws: seq<string>, prefix: string)
    requires forall k :: 0 <= k < |ws| ==> !HasPrefix(ws[k], prefix)
    ensures WithPrefix(ws, prefix) == []
    decreases |ws|
  {
    if ws != [] {
      NoneWithPrefix(ws[1..], prefix);
    }
  }

  // ---------------------------------------------------------------------------
  // Wildcard lookup
  // ---------------------------------------------------------------------------

  /** `matchesPattern`: every non-'.' character of the pattern equals the word's character there. */
  predicate Matches(word: string, pattern: string)
    requires |word| == |pattern|
  {
    forall i :: 0 <= i < |pattern| ==> pattern[i] == '.' || pattern[i] == word[i]
  }

  /** The character loop of `matchesPattern`. */
  method MatchesPattern(word: string, pattern: string) returns (m: bool)
    requires |word| == |pattern|
    ensures m <==> Matches(word, pattern)
  {
    var i := 0;
    while i < |pattern|
      invariant 0 <= i <= |pattern|
      invariant forall k :: 0 <= k < i ==> pattern[k] == '.' || pattern[k] == word[k]
    {
      if pattern[i] != '.' && pattern[i] != word[i] {
        return false;
      }
      i := i + 1;
    }
    return true;
  }

  /**
   * `exists`: only the bucket of the pattern's length is searched; the answer
   * is whether some stored word of that length matches.
   */
  method Exists(d: Dictionary, pattern: string) returns (found: bool)
    requires Valid(d)
    ensures found <==> exists w :: w in d.dict && |w| == |pattern| && Matches(w, pattern)
  {
    var len := |pattern|;
    if len !in d.wordsByLen {
      return false;
    }
    var candidates := d.wordsByLen[len];
    var remaining := candidates;
    while remaining != {}
      invariant remaining <= candidates
      invariant forall w :: w in candidates - remaining ==> !Matches(w, pattern)
      decreases |remaining|
    {
      var w :| w in remaining;
      var m := MatchesPattern(w, pattern);
      if m {
        return true;
      }
      remaining := remaining - {w};
    }
    return false;
  }
}
