/**
 * Fewest sorts of proper substrings that sort a string
 * (q57-proper-substrings, Solution.java).
 *
 * One operation sorts a substring that is not the whole string. The solution
 * compares the string with its sorted permutation (built by counting the
 * letters 'a' .. 'z'): none are needed when they agree; one when every
 * mismatch lies inside a proper segment; two when sorting all but the last
 * or all but the first character leaves such a string; three otherwise.
 */
module ProperSubstrings {
  import opened Common

  /** `ArrayIndexOutOfBoundsException`: a character outside 'a' .. 'z' has no letter count. */
  datatype SortError = NotLowercase

  predicate IsLower(ch: char) {
    'a' <= ch <= 'z'
  }

  predicate AllLower(s: string) {
    forall i :: 0 <= i < |s| ==> IsLower(s[i])
  }

  /** Non-decreasing order of characters. */
  predicate Sorted(s: string) {
    forall i, j :: 0 <= i < j < |s| ==> s[i] <= s[j]
  }

  /** The c-th letter of the alphabet, counting 'a' as 0. */
  function Letter(c: int): (ch: char)
    requires 0 <= c < 26
    ensures IsLower(ch)
  {
    (('a' as int) + c) as char
  }

  /** The alphabet position of a character. */
  function Code(ch: char): int {
    (ch as int) - ('a' as int)
  }

  function Repeat(ch: char, k: nat): (r: string)
    ensures |r| == k && forall i :: 0 <= i < k ==> r[i] == ch
  {
    seq(k, _ => ch)
  }

  /** The output loop of the counting sort from letter `c` on: each letter as many times as `s` holds it. */
  function Fill(s: string, c: int): string
    requires 0 <= c <= 26
    decreases 26 - c
  {
    if c == 26 then [] else Repeat(Letter(c), multiset(s)[Letter(c)]) + Fill(s, c + 1)
  }

  /** `buildGloballySorted`: the counting sort over 'a' .. 'z'. */
  function CountingSort(s: string): string {
    Fill(s, 0)
  }

  /** The letters of `Fill(s, c)` are in order and no earlier than the c-th letter. */
  lemma {:induction false} FillSorted(s: string, c: int)
    requires 0 <= c <= 26
    ensures Sorted(Fill(s, c))
    ensures forall i :: 0 <= i < |Fill(s, c)| ==> c <= Code(Fill(s, c)[i]) < 26
    decreases 26 - c
  {
    if c < 26 {
      FillSorted(s, c + 1);
      var head := Repeat(Letter(c), multiset(s)[Letter(c)]);
      var tail := Fill(s, c + 1);
      assert Fill(s, c) == head + tail;
      forall i, j | 0 <= i < j < |head + tail| ensures (head + tail)[i] <= (head + tail)[j] {
        if i < |head| && j >= |head| {
          assert Code((head + tail)[j]) > c;
        }
      }
    }
  }

  lemma {:induction false} RepeatCount(ch: char, k: nat, x: char)
    ensures multiset(Repeat(ch, k))[x] == if x == ch then k else 0
    decreases k
  {
    if k > 0 {
      assert Repeat(ch, k) == Repeat(ch, k - 1) + [ch];
      RepeatCount(ch, k - 1, x);
    }
  }

  /** A character is the c-th letter exactly when its alphabet position is c. */
  lemma LetterCode(c: int, x: char)
    requires 0 <= c < 26
    ensures x == Letter(c) <==> Code(x) == c
  {
  }

  /** `Fill(s, c)` holds each letter from the c-th on exactly as often as `s`, and nothing else. */
  lemma {:induction false} FillCount(s: string, c: int, x: char)
    requires 0 <= c <= 26
    ensures multiset(Fill(s, c))[x] == if c <= Code(x) < 26 then multiset(s)[x] else 0
    decreases 26 - c
  {
    if c < 26 {
      var head := Repeat(Letter(c), multiset(s)[Letter(c)]);
      FillCount(s, c + 1, x);
      RepeatCount(Letter(c), multiset(s)[Letter(c)], x);
      LetterCode(c, x);
      assert multiset(Fill(s, c)) == multiset(head) + multiset(Fill(s, c + 1));
    }
  }

  /** A lower-case string holds no character outside the alphabet. */
  lemma NonLetterAbsent(s: string, x: char)
    requires AllLower(s) && !(0 <= Code(x) < 26)
    ensures multiset(s)[x] == 0
  {
  }

  /** A character at an alphabet position is a lower-case letter. */
  lemma CodeIsLower(x: char)
    requires 0 <= Code(x) < 26
    ensures IsLower(x)
  {
  }

  /** For a lower-case string the counting sort holds the same characters. */
  lemma CountingSortMultiset(s: string)
    requires AllLower(s)
    ensures multiset(CountingSort(s)) == multiset(s)
  {
    forall x ensures multiset(CountingSort(s))[x] == multiset(s)[x] {
      FillCount(s, 0, x);
      if !(0 <= Code(x) < 26) {
        NonLetterAbsent(s, x);
      }
    }
  }

  /** The counting sort holds only lower-case letters. */
  lemma CountingSortLower(s: string)
    ensures AllLower(CountingSort(s))
  {
    var t := CountingSort(s);
    FillSorted(s, 0);
    forall i | 0 <= i < |t| ensures IsLower(t[i]) {
      CodeIsLower(t[i]);
    }
  }

  /** Strings with the same characters have the same length. */
  lemma SameLength(a: string, b: string)
    requires multiset(a) == multiset(b)
    ensures |a| == |b|
  {
    assert |multiset(a)| == |multiset(b)|;
  }

  lemma CountingSortLength(s: string)
    requires AllLower(s)
    ensures |CountingSort(s)| == |s|
  {
    CountingSortMultiset(s);
    SameLength(CountingSort(s), s);
  }

  /** For a lower-case string the counting sort is a sorted permutation of it. */
  lemma CountingSortPermutes(s: string)
    requires AllLower(s)
    ensures Sorted(CountingSort(s))
    ensures multiset(CountingSort(s)) == multiset(s)
    ensures |CountingSort(s)| == |s| && AllLower(CountingSort(s))
  {
    FillSorted(s, 0);
    CountingSortMultiset(s);
    SameLength(CountingSort(s), s);
    CountingSortLower(s);
  }

  /** In a sorted string the first character is no later than any it holds. */
  lemma FirstIsLeast(x: string, ch: char)
    requires Sorted(x) && ch in multiset(x)
    ensures x != [] && x[0] <= ch
  {
    var i :| 0 <= i < |x| && x[i] == ch;
  }

  /** Sorting is unique: two sorted strings with the same characters are equal. */
  lemma {:induction false} SortedUnique(x: string, y: string)
    requires Sorted(x) && Sorted(y) && multiset(x) == multiset(y)
    ensures x == y
    decreases |x|
  {
    if x != [] {
      FirstIsLeast(x, y[0]) by {
        assert y != [] by {
          assert |multiset(y)| == |multiset(x)| > 0;
        }
        assert y == [y[0]] + y[1..];
      }
      FirstIsLeast(y, x[0]) by {
        assert x == [x[0]] + x[1..];
      }
      SortedRest(x, y);
      SortedUnique(x[1..], y[1..]);
    }
  }

  lemma ConsMultiset(x: string)
    requires x != []
    ensures multiset(x[1..]) == multiset(x) - multiset{x[0]}
  {
    assert x == [x[0]] + x[1..];
  }

  /** With the same first character, the rests hold the same characters and stay sorted. */
  lemma SortedRest(x: string, y: string)
    requires Sorted(x) && Sorted(y) && x != [] && y != [] && x[0] == y[0] && multiset(x) == multiset(y)
    ensures Sorted(x[1..]) && Sorted(y[1..]) && multiset(x[1..]) == multiset(y[1..])
  {
    ConsMultiset(x);
    ConsMultiset(y);
  }

  /** The first index where the two strings differ, or their length. */
  function FirstMismatch(a: string, b: string, i: int): (l: int)
    requires |a| == |b| && 0 <= i <= |a|
    ensures i <= l <= |a| && (l < |a| ==> a[l] != b[l])
    ensures forall k :: i <= k < l ==> a[k] == b[k]
    decreases |a| - i
  {
    if i == |a| || a[i] != b[i] then i else FirstMismatch(a, b, i + 1)
  }

  /** The last index up to `r` where the two strings differ, or -1. */
  function LastMismatch(a: string, b: string, r: int): (l: int)
    requires |a| == |b| && -1 <= r < |a|
    ensures -1 <= l <= r && (l >= 0 ==> a[l] != b[l])
    ensures forall k :: l < k <= r ==> a[k] == b[k]
    decreases r
  {
    if r < 0 || a[r] != b[r] then r else LastMismatch(a, b, r - 1)
  }

  /** `mismatchBounds` spans the whole string: the first and the last characters both differ. */
  predicate FullSpan(a: string, b: string)
    requires |a| == |b|
  {
    FirstMismatch(a, b, 0) == 0 && LastMismatch(a, b, |a| - 1) == |a| - 1
  }

  /** `isOneOperationAway`: equal, or the mismatches leave out the first or the last character. */
  predicate OneAway(current: string, target: string)
    requires |current| == |target|
  {
    current == target || !FullSpan(current, target)
  }

  /** A segment other than the whole string. */
  predicate Proper(i: int, j: int, n: int) {
    0 <= i <= j <= n && !(i == 0 && j == n)
  }

  /** One operation: the characters in [i, j) sorted, the rest in place. */
  function SortSegment(s: string, i: int, j: int): string
    requires 0 <= i <= j <= |s|
  {
    s[..i] + CountingSort(s[i..j]) + s[j..]
  }

  /** On a lower-case string, an operation keeps the length. */
  lemma SortSegmentLength(s: string, i: int, j: int)
    requires AllLower(s) && 0 <= i <= j <= |s|
    ensures |SortSegment(s, i, j)| == |s|
  {
    LowerSlice(s, i, j);
    CountingSortLength(s[i..j]);
  }

  /** On a lower-case string, an operation keeps the characters and the length. */
  lemma SortSegmentPermutes(s: string, i: int, j: int)
    requires AllLower(s) && 0 <= i <= j <= |s|
    ensures |SortSegment(s, i, j)| == |s|
    ensures multiset(SortSegment(s, i, j)) == multiset(s)
  {
    LowerSlice(s, i, j);
    CountingSortPermutes(s[i..j]);
    SegmentSplit(s, i, j);
    SameLength(SortSegment(s, i, j), s);
  }

  lemma SegmentSplit(s: string, i: int, j: int)
    requires 0 <= i <= j <= |s|
    requires multiset(CountingSort(s[i..j])) == multiset(s[i..j])
    ensures multiset(SortSegment(s, i, j)) == multiset(s)
  {
    var a, b, c := s[..i], s[i..j], s[j..];
    ThreeParts(s, i, j);
    MultisetThree(a, b, c);
    MultisetThree(a, CountingSort(b), c);
  }

  lemma ThreeParts(s: string, i: int, j: int)
    requires 0 <= i <= j <= |s|
    ensures s == s[..i] + s[i..j] + s[j..]
  {
  }

  lemma MultisetThree(a: string, b: string, c: string)
    ensures multiset(a + b + c) == multiset(a) + multiset(b) + multiset(c)
  {
  }

  lemma LowerSlice(s: string, i: int, j: int)
    requires AllLower(s) && 0 <= i <= j <= |s|
    ensures AllLower(s[i..j])
  {
  }

  lemma DifferentNonEmpty(s: string, t: string)
    requires |s| == |t| && s != t
    ensures |s| >= 1
  {
  }

  /** The decision once the sorted target is known. */
  function Operations(s: string, target: string): (r: int)
    requires AllLower(s) && |target| == |s|
    ensures 0 <= r <= 3
  {
    if s == target then 0
    else if !FullSpan(s, target) then 1
    else
      DifferentNonEmpty(s, target);
      if TwoAway(s, target) then 2 else 3
  }

  /** Sorting all but the last, or else all but the first, character leaves a string one operation away. */
  predicate TwoAway(s: string, target: string)
    requires AllLower(s) && |target| == |s| >= 1
  {
    SortSegmentLength(s, 0, |s| - 1);
    SortSegmentLength(s, 1, |s|);
    OneAway(SortSegment(s, 0, |s| - 1), target) || OneAway(SortSegment(s, 1, |s|), target)
  }

  /** `getMinimumOperations`: the count of operations for a string of lower-case letters. */
  function MinOperations(s: string): (r: Result<int, SortError>)
    ensures r.Err? <==> !AllLower(s)
    ensures r.Ok? ==> 0 <= r.value <= 3
  {
    if !AllLower(s) then Err(NotLowercase)
    else
      CountingSortLength(s);
      Ok(Operations(s, CountingSort(s)))
  }

  /** A lower-case string needs no operation exactly when it is already sorted. */
  lemma ZeroIffSorted(s: string)
    requires AllLower(s)
    ensures MinOperations(s) == Ok(0) <==> Sorted(s)
  {
    CountingSortPermutes(s);
    if Sorted(s) {
      SortedUnique(s, CountingSort(s));
    }
  }

  /**
   * Fixing the mismatches in one go: when `cur` holds the characters of the
   * sorted `t` and agrees with it outside [l, r], sorting that segment gives `t`.
   */
  lemma SegmentFix(cur: string, t: string, l: int, r: int)
    requires AllLower(cur) && |cur| == |t| && multiset(cur) == multiset(t) && Sorted(t)
    requires 0 <= l <= r < |cur|
    requires forall k :: 0 <= k < |cur| && (k < l || k > r) ==> cur[k] == t[k]
    ensures SortSegment(cur, l, r + 1) == t
  {
    var mid := cur[l..r + 1];
    SameOutside(cur, t, l, r + 1);
    MiddleMultiset(cur, t, l, r + 1);
    LowerSlice(cur, l, r + 1);
    CountingSortPermutes(mid);
    SortedSlice(t, l, r + 1);
    SortedUnique(CountingSort(mid), t[l..r + 1]);
    ThreeParts(t, l, r + 1);
  }

  lemma SameOutside(a: string, b: string, i: int, j: int)
    requires |a| == |b| && 0 <= i <= j <= |a|
    requires forall k :: 0 <= k < |a| && (k < i || k >= j) ==> a[k] == b[k]
    ensures a[..i] == b[..i] && a[j..] == b[j..]
  {
    assert forall k :: 0 <= k < i ==> a[..i][k] == b[..i][k];
    assert forall k :: 0 <= k < |a| - j ==> a[j..][k] == a[j + k] && b[j..][k] == b[j + k];
  }

  /** Equal characters overall and equal outer parts leave equal characters in the middle. */
  lemma MiddleMultiset(a: string, b: string, i: int, j: int)
    requires |a| == |b| && 0 <= i <= j <= |a| && multiset(a) == multiset(b)
    requires a[..i] == b[..i] && a[j..] == b[j..]
    ensures multiset(a[i..j]) == multiset(b[i..j])
  {
    ThreeParts(a, i, j);
    ThreeParts(b, i, j);
    MultisetThree(a[..i], a[i..j], a[j..]);
    MultisetThree(b[..i], b[i..j], b[j..]);
    forall x ensures multiset(a[i..j])[x] == multiset(b[i..j])[x] {
      assert multiset(a)[x] == multiset(a[..i])[x] + multiset(a[i..j])[x] + multiset(a[j..])[x];
    }
  }

  lemma SortedSlice(s: string, i: int, j: int)
    requires Sorted(s) && 0 <= i <= j <= |s|
    ensures Sorted(s[i..j])
  {
  }

  /**
   * When `cur` differs from `t` but not at both ends, the mismatches lie in a
   * proper segment [l, r] and `cur` agrees with `t` outside it.
   */
  lemma MismatchSegment(cur: string, t: string) returns (l: int, r: int)
    requires |cur| == |t| && cur != t && !FullSpan(cur, t)
    ensures 0 <= l <= r < |cur| && Proper(l, r + 1, |cur|)
    ensures forall k :: 0 <= k < |cur| && (k < l || k > r) ==> cur[k] == t[k]
  {
    var d := DifferAt(cur, t);
    l := FirstMismatch(cur, t, 0);
    r := LastMismatch(cur, t, |cur| - 1);
    assert l <= d <= r;
  }

  /** Two different strings of one length differ at some position. */
  lemma DifferAt(a: string, b: string) returns (d: int)
    requires |a| == |b| && a != b
    ensures 0 <= d < |a| && a[d] != b[d]
  {
    d :| 0 <= d < |a| && a[d] != b[d];
  }

  /** Sorting an empty segment changes nothing. */
  lemma EmptySegment(s: string, i: int)
    requires 0 <= i <= |s|
    ensures SortSegment(s, i, i) == s
  {
    CountingSortLength(s[i..i]);
    assert CountingSort(s[i..i]) == [];
    ThreeParts(s, i, i);
  }

  /** Characters outside the sorted segment stay where they are. */
  lemma OutsideKept(s: string, i: int, j: int, k: int)
    requires AllLower(s) && 0 <= i <= j <= |s| && 0 <= k < |s| && (k < i || k >= j)
    ensures |SortSegment(s, i, j)| == |s| && SortSegment(s, i, j)[k] == s[k]
  {
    LowerSlice(s, i, j);
    CountingSortLength(s[i..j]);
    KeptAround(s, CountingSort(s[i..j]), i, j, k);
  }

  lemma KeptAround(s: string, m: string, i: int, j: int, k: int)
    requires 0 <= i <= j <= |s| && |m| == j - i && 0 <= k < |s| && (k < i || k >= j)
    ensures |s[..i] + m + s[j..]| == |s| && (s[..i] + m + s[j..])[k] == s[k]
  {
    if k >= j {
      assert (s[..i] + m + s[j..])[k] == s[j..][k - j];
    }
  }

  /** An operation on a lower-case string leaves it lower-case. */
  lemma SortSegmentLower(s: string, i: int, j: int)
    requires AllLower(s) && 0 <= i <= j <= |s|
    ensures AllLower(SortSegment(s, i, j))
  {
    CountingSortLower(s[i..j]);
  }

  /** `y` is one operation on a proper segment of `x` away. */
  ghost predicate OneSort(x: string, y: string) {
    exists i, j :: Proper(i, j, |x|) && SortSegment(x, i, j) == y
  }

  /** Any string with the characters of the sorted `t` that is one operation away by the test reaches `t` in one operation. */
  lemma OneAwayFixed(cur: string, t: string)
    requires AllLower(cur) && |cur| == |t| >= 1 && multiset(cur) == multiset(t) && Sorted(t)
    requires OneAway(cur, t)
    ensures OneSort(cur, t)
  {
    if cur == t {
      EmptySegment(cur, 0);
      assert Proper(0, 0, |cur|);
    } else {
      var l, r := MismatchSegment(cur, t);
      SegmentFix(cur, t, l, r);
      assert Proper(l, r + 1, |cur|);
    }
  }

  /** A sort that reaches the target leaves both ends mismatching only if it spans the whole string. */
  lemma OneSortNotFullSpan(s: string, t: string)
    requires AllLower(s) && |s| == |t| && OneSort(s, t) && s != t
    ensures !FullSpan(s, t)
  {
    var i, j :| Proper(i, j, |s|) && SortSegment(s, i, j) == t;
    if FullSpan(s, t) {
      if i > 0 {
        OutsideKept(s, i, j, 0);
      } else {
        OutsideKept(s, i, j, |s| - 1);
      }
    }
  }

  /**
   * Exactly one operation is reported when the string is not sorted and a
   * single sort of a proper segment sorts it.
   */
  lemma OneIffOneSort(s: string)
    requires AllLower(s)
    ensures MinOperations(s) == Ok(1) <==> !Sorted(s) && OneSort(s, CountingSort(s))
  {
    var t := CountingSort(s);
    CountingSortPermutes(s);
    ZeroIffSorted(s);
    if MinOperations(s) == Ok(1) {
      var l, r := MismatchSegment(s, t);
      SegmentFix(s, t, l, r);
      assert Proper(l, r + 1, |s|);
    }
    if !Sorted(s) && OneSort(s, t) {
      OneSortNotFullSpan(s, t);
    }
  }

  /**
   * When two operations are reported, one does not suffice and two do:
   * sorting all but the last (or all but the first) character and then the
   * remaining mismatches sorts the string.
   */
  lemma TwoSuffice(s: string)
    requires AllLower(s) && MinOperations(s) == Ok(2)
    ensures !Sorted(s) && !OneSort(s, CountingSort(s))
    ensures exists mid :: OneSort(s, mid) && OneSort(mid, CountingSort(s))
  {
    var t := CountingSort(s);
    ZeroIffSorted(s);
    OneIffOneSort(s);
    CountingSortLength(s);
    DifferentNonEmpty(s, t);
    var i, j := Candidate(s, t);
    ViaCandidate(s, i, j);
  }

  /** The first of the two sorts the decision tries: all but the last, or else all but the first, character. */
  lemma Candidate(s: string, t: string) returns (i: int, j: int)
    requires AllLower(s) && |t| == |s| >= 1 && TwoAway(s, t)
    ensures Proper(i, j, |s|) && |SortSegment(s, i, j)| == |t|
    ensures OneAway(SortSegment(s, i, j), t)
  {
    SortSegmentLength(s, 0, |s| - 1);
    SortSegmentLength(s, 1, |s|);
    if OneAway(SortSegment(s, 0, |s| - 1), t) {
      i, j := 0, |s| - 1;
    } else {
      i, j := 1, |s|;
    }
  }

  /** A first proper sort that leaves the string one operation away from sorted gives two operations in all. */
  lemma ViaCandidate(s: string, i: int, j: int)
    requires AllLower(s) && Proper(i, j, |s|) && |s| >= 1
    requires |SortSegment(s, i, j)| == |CountingSort(s)|
    requires OneAway(SortSegment(s, i, j), CountingSort(s))
    ensures OneSort(s, SortSegment(s, i, j)) && OneSort(SortSegment(s, i, j), CountingSort(s))
  {
    var mid := SortSegment(s, i, j);
    CountingSortPermutes(s);
    SortSegmentPermutes(s, i, j);
    SortSegmentLower(s, i, j);
    OneAwayFixed(mid, CountingSort(s));
  }
}
