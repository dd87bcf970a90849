/**
 * Java string operations used throughout the exercises, stated over `string`
 * (a `seq<char>`): `trim`, `isBlank`, ASCII lower-casing, collapsing runs of
 * regex whitespace (`\s+` -> " "), `split` on one separator character,
 * `Integer.parseInt` / `Integer.toString`, and the lexicographic order of
 * `String.compareTo`.
 */
module Strings {
  import opened Common

  // ---------------------------------------------------------------------------
  // Character classes
  // ---------------------------------------------------------------------------

  /** The characters `String.trim` removes: every code point up to U+0020. */
  predicate IsTrimChar(c: char) {
    c <= ' '
  }

  /** The regex class `\s`: space, tab, line feed, vertical tab, form feed, carriage return. */
  predicate IsRegexSpace(c: char) {
    c == ' ' || c == '\t' || c == '\n' || c == '\U{0B}' || c == '\U{0C}' || c == '\r'
  }

  /** `Character.isWhitespace` restricted to the ASCII range (used by `isBlank`). */
  predicate IsWhitespace(c: char) {
    IsRegexSpace(c) || ('\U{1C}' <= c <= '\U{1F}')
  }

  predicate IsUpper(c: char) {
    'A' <= c <= 'Z'
  }

  predicate IsLowerLetter(c: char) {
    'a' <= c <= 'z'
  }

  predicate IsDigit(c: char) {
    '0' <= c <= '9'
  }

  function LowerChar(c: char): char {
    if IsUpper(c) then (c as int - 'A' as int + 'a' as int) as char else c
  }

  // ---------------------------------------------------------------------------
  // trim / isBlank / isEmpty
  // ---------------------------------------------------------------------------

  /** Drops the leading trim characters. */
  function TrimLeft(s: string): (r: string)
    ensures |r| <= |s| && r == s[|s| - |r|..]
    ensures forall k :: 0 <= k < |s| - |r| ==> IsTrimChar(s[k])
    ensures r == [] || !IsTrimChar(r[0])
  {
    if s == [] || !IsTrimChar(s[0]) then s else TrimLeft(s[1..])
  }

  /** Drops the trailing trim characters. */
  function TrimRight(s: string): (r: string)
    ensures |r| <= |s| && r == s[..|r|]
    ensures forall k :: |r| <= k < |s| ==> IsTrimChar(s[k])
    ensures r == [] || !IsTrimChar(r[|r| - 1])
  {
    if s == [] || !IsTrimChar(s[|s| - 1]) then s else TrimRight(s[..|s| - 1])
  }

  /** `String.trim`: a contiguous piece of `s` that neither starts nor ends with a trim character. */
  function Trim(s: string): (r: string)
    ensures |r| <= |s|
    ensures r == [] || (!IsTrimChar(r[0]) && !IsTrimChar(r[|r| - 1]))
    ensures r == [] <==> forall k :: 0 <= k < |s| ==> IsTrimChar(s[k])
  {
    var l := TrimLeft(s);
    var r := TrimRight(l);
    assert r == [] ==> l == [];
    r
  }

  /** A string that `trim` leaves unchanged. */
  predicate IsTrimmed(s: string) {
    s == [] || (!IsTrimChar(s[0]) && !IsTrimChar(s[|s| - 1]))
  }

  lemma TrimOfTrimmed(s: string)
    requires IsTrimmed(s)
    ensures Trim(s) == s
  {
  }

  /** `s.trim().isEmpty()`, the blank test most of the exercises use. */
  predicate IsTrimBlank(s: string) {
    forall k :: 0 <= k < |s| ==> IsTrimChar(s[k])
  }

  /** `String.isBlank`. */
  predicate IsBlank(s: string) {
    forall k :: 0 <= k < |s| ==> IsWhitespace(s[k])
  }

  // ---------------------------------------------------------------------------
  // Lower-casing and whitespace collapsing
  // ---------------------------------------------------------------------------

  /** `toLowerCase(Locale.ROOT)` on the ASCII letters. */
  function ToLower(s: string): (r: string)
    ensures |r| == |s|
    ensures forall k :: 0 <= k < |s| ==> r[k] == LowerChar(s[k])
  {
    if s == [] then [] else [LowerChar(s[0])] + ToLower(s[1..])
  }

  predicate HasNoUpper(s: string) {
    forall k :: 0 <= k < |s| ==> !IsUpper(s[k])
  }

  /** Drops the leading `\s` characters. */
  function DropSpaces(s: string): (r: string)
    ensures |r| <= |s| && r == s[|s| - |r|..]
    ensures r == [] || !IsRegexSpace(r[0])
    ensures s != [] && !IsRegexSpace(s[|s| - 1]) ==> r != [] && r[|r| - 1] == s[|s| - 1]
  {
    if s == [] || !IsRegexSpace(s[0]) then s else DropSpaces(s[1..])
  }

  /** `replaceAll("\\s+", " ")`: every maximal run of `\s` becomes one space. */
  function Collapse(s: string): (r: string)
    ensures |r| <= |s|
    ensures r == [] <==> s == []
    ensures s != [] && !IsRegexSpace(s[0]) ==> r[0] == s[0]
    ensures s != [] && !IsRegexSpace(s[|s| - 1]) ==> r[|r| - 1] == s[|s| - 1]
    ensures IsCollapsed(r)
    decreases |s|
  {
    if s == [] then []
    else if IsRegexSpace(s[0]) then
      var tail := Collapse(DropSpaces(s[1..]));
      ConsCollapsed(' ', tail);
      [' '] + tail
    else
      var tail := Collapse(s[1..]);
      ConsCollapsed(s[0], tail);
      [s[0]] + tail
  }

  lemma ConsCollapsed(c: char, t: string)
    requires IsCollapsed(t)
    requires IsRegexSpace(c) ==> c == ' ' && (t == [] || !IsRegexSpace(t[0]))
    ensures IsCollapsed([c] + t)
  {
    var r := [c] + t;
    forall k | 0 <= k < |r| - 1
      ensures !(IsRegexSpace(r[k]) && IsRegexSpace(r[k + 1]))
    {
      if k > 0 {
        assert r[k] == t[k - 1] && r[k + 1] == t[k];
      }
    }
  }

  /** A string in which every `\s` run already is one plain space. */
  predicate IsCollapsed(s: string) {
    && (forall k :: 0 <= k < |s| && IsRegexSpace(s[k]) ==> s[k] == ' ')
    && (forall i, j :: 0 <= i < |s| && 0 <= j < |s| && j == i + 1 ==> !(IsRegexSpace(s[i]) && IsRegexSpace(s[j])))
  }

  lemma {:induction false} CollapseOfCollapsed(s: string)
    requires IsCollapsed(s)
    ensures Collapse(s) == s
    decreases |s|
  {
    if s == [] {
    } else if IsRegexSpace(s[0]) {
      assert DropSpaces(s[1..]) == s[1..];
      assert IsCollapsed(s[1..]);
      CollapseOfCollapsed(s[1..]);
    } else {
      assert IsCollapsed(s[1..]);
      CollapseOfCollapsed(s[1..]);
    }
  }

  lemma {:induction false} LowerOfNoUpper(s: string)
    requires HasNoUpper(s)
    ensures ToLower(s) == s
  {
  }

  lemma NoUpperCons(c: char, t: string)
    ensures HasNoUpper([c] + t) <==> !IsUpper(c) && HasNoUpper(t)
  {
    var r := [c] + t;
    assert r[0] == c;
    assert forall k :: 0 <= k < |t| ==> r[k + 1] == t[k];
  }

  lemma NoUpperSuffix(s: string, i: nat)
    requires HasNoUpper(s) && i <= |s|
    ensures HasNoUpper(s[i..])
  {
    assert forall k :: 0 <= k < |s| - i ==> s[i..][k] == s[i + k];
  }

  lemma {:induction false} CollapseKeepsNoUpper(s: string)
    requires HasNoUpper(s)
    ensures HasNoUpper(Collapse(s))
    decreases |s|
  {
    if s != [] {
      NoUpperCons(s[0], s[1..]);
      assert s == [s[0]] + s[1..];
      if IsRegexSpace(s[0]) {
        var t := s[1..];
        var d := DropSpaces(t);
        NoUpperSuffix(t, |t| - |d|);
        CollapseKeepsNoUpper(d);
        assert Collapse(s) == [' '] + Collapse(d);
        NoUpperCons(' ', Collapse(d));
      } else {
        CollapseKeepsNoUpper(s[1..]);
        assert Collapse(s) == [s[0]] + Collapse(s[1..]);
        NoUpperCons(s[0], Collapse(s[1..]));
      }
    }
  }

  /** Length of the leading run of characters that are not `\s`. */
  function WordEnd(s: string): (e: nat)
    ensures e <= |s|
    ensures forall k :: 0 <= k < e ==> !IsRegexSpace(s[k])
    ensures e < |s| ==> IsRegexSpace(s[e])
  {
    if s == [] || IsRegexSpace(s[0]) then 0 else 1 + WordEnd(s[1..])
  }

  /** The maximal runs of non-`\s` characters, in order: what `split("\\s+")` yields for a trimmed string. */
  function Words(s: string): seq<string>
    decreases |s|
  {
    if s == [] then []
    else if IsRegexSpace(s[0]) then Words(s[1..])
    else
      var e := WordEnd(s);
      [s[..e]] + Words(s[e..])
  }

  lemma {:induction false} WordsDropSpaces(s: string)
    ensures Words(DropSpaces(s)) == Words(s)
    decreases |s|
  {
    if s != [] && IsRegexSpace(s[0]) {
      WordsDropSpaces(s[1..]);
    }
  }

  /** A word followed by nothing or by a `\s` character is split off as the first word. */
  lemma WordsPrefix(w: string, x: string)
    requires w != [] && forall k :: 0 <= k < |w| ==> !IsRegexSpace(w[k])
    requires x == [] || IsRegexSpace(x[0])
    ensures Words(w + x) == [w] + Words(x)
  {
    WordEndPrefix(w, x);
    assert (w + x)[..|w|] == w;
    assert (w + x)[|w|..] == x;
  }

  lemma {:induction false} WordEndPrefix(w: string, x: string)
    requires forall k :: 0 <= k < |w| ==> !IsRegexSpace(w[k])
    requires x == [] || IsRegexSpace(x[0])
    ensures WordEnd(w + x) == |w|
    decreases |w|
  {
    if w == [] {
      assert w + x == x;
    } else {
      assert (w + x)[1..] == w[1..] + x;
      WordEndPrefix(w[1..], x);
    }
  }

  /** Collapsing leaves a leading word alone. */
  lemma {:induction false} CollapseWord(s: string)
    ensures Collapse(s) == s[..WordEnd(s)] + Collapse(s[WordEnd(s)..])
    decreases |s|
  {
    if s != [] && !IsRegexSpace(s[0]) {
      var e1 := WordEnd(s[1..]);
      CollapseWord(s[1..]);
      CollapseCons(s);
      SliceCons(s, e1);
      ConsAssoc(s[0], s[1..][..e1], Collapse(s[e1 + 1..]));
    }
  }

  lemma CollapseCons(s: string)
    requires s != [] && !IsRegexSpace(s[0])
    ensures Collapse(s) == [s[0]] + Collapse(s[1..])
  {
  }

  lemma SliceCons(s: string, e: nat)
    requires e < |s|
    ensures s[..e + 1] == [s[0]] + s[1..][..e]
    ensures s[1..][e..] == s[e + 1..]
  {
  }

  lemma ConsAssoc(c: char, a: string, b: string)
    ensures [c] + (a + b) == ([c] + a) + b
  {
  }

  lemma CollapseSpace(s: string)
    requires s != [] && IsRegexSpace(s[0])
    ensures Words(Collapse(s)) == Words(Collapse(DropSpaces(s[1..])))
  {
    var c := Collapse(DropSpaces(s[1..]));
    assert Collapse(s) == [' '] + c;
    assert ([' '] + c)[1..] == c;
  }

  /** Collapsing whitespace runs keeps the words and their order. */
  lemma {:induction false} WordsCollapse(s: string)
    ensures Words(Collapse(s)) == Words(s)
    decreases |s|
  {
    if s == [] {
    } else if IsRegexSpace(s[0]) {
      WordsCollapse(DropSpaces(s[1..]));
      WordsDropSpaces(s[1..]);
      CollapseSpace(s);
    } else {
      var e := WordEnd(s);
      WordsCollapse(s[e..]);
      CollapseWord(s);
      CollapseStartsWithSpace(s[e..]);
      WordsPrefix(s[..e], Collapse(s[e..]));
    }
  }

  /** A collapsed string that neither starts nor ends with `\s` is its words joined by single spaces. */
  lemma {:induction false} CollapsedIsJoinedWords(s: string)
    requires IsCollapsed(s)
    requires s == [] || (!IsRegexSpace(s[0]) && !IsRegexSpace(s[|s| - 1]))
    ensures Join(Words(s), ' ') == s
    decreases |s|
  {
    if s != [] {
      var e := WordEnd(s);
      if e == |s| {
        assert s[..e] == s && s[e..] == [];
      } else {
        CollapsedGap(s, e);
        var rest := s[e + 1..];
        CollapsedSuffix(s, e + 1);
        CollapsedIsJoinedWords(rest);
        WordsAtGap(s, e);
        JoinCons(s[..e], Words(rest));
      }
    }
  }

  lemma CollapsedGap(s: string, e: nat)
    requires IsCollapsed(s) && s != [] && !IsRegexSpace(s[|s| - 1])
    requires e < |s| && IsRegexSpace(s[e])
    ensures s[e] == ' ' && e + 1 < |s| && !IsRegexSpace(s[e + 1])
  {
  }

  /** A word ended by a single space before another word. */
  lemma WordsAtGap(s: string, e: nat)
    requires s != [] && !IsRegexSpace(s[0]) && e == WordEnd(s) && e + 1 < |s|
    requires s[e] == ' ' && !IsRegexSpace(s[e + 1])
    ensures Words(s) == [s[..e]] + Words(s[e + 1..])
    ensures Words(s[e + 1..]) != []
    ensures s == s[..e] + [' '] + s[e + 1..]
  {
    WordsFirst(s);
    WordsSkipSpace(s[e..]);
    SliceAround(s, e);
    WordsNonEmpty(s[e + 1..]);
  }

  lemma WordsFirst(s: string)
    requires s != [] && !IsRegexSpace(s[0])
    ensures Words(s) == [s[..WordEnd(s)]] + Words(s[WordEnd(s)..])
  {
  }

  lemma SliceAround(s: string, e: nat)
    requires e < |s|
    ensures s[e..][1..] == s[e + 1..]
    ensures s == s[..e] + [s[e]] + s[e + 1..]
  {
  }

  lemma WordsSkipSpace(s: string)
    requires s != [] && IsRegexSpace(s[0])
    ensures Words(s) == Words(s[1..])
  {
  }

  lemma WordsNonEmpty(s: string)
    requires s != [] && !IsRegexSpace(s[0])
    ensures Words(s) != []
  {
  }

  lemma CollapsedSuffix(s: string, i: nat)
    requires IsCollapsed(s) && i <= |s|
    ensures IsCollapsed(s[i..])
  {
    var t := s[i..];
    forall a, b | 0 <= a < |t| && 0 <= b < |t| && b == a + 1
      ensures !(IsRegexSpace(t[a]) && IsRegexSpace(t[b]))
    {
      assert t[a] == s[i + a] && t[b] == s[i + b];
    }
  }

  lemma JoinCons(w: string, ws: seq<string>)
    requires ws != []
    ensures Join([w] + ws, ' ') == w + [' '] + Join(ws, ' ')
  {
    assert ([w] + ws)[1..] == ws;
  }

  lemma CollapseStartsWithSpace(s: string)
    requires s == [] || IsRegexSpace(s[0])
    ensures Collapse(s) == [] || IsRegexSpace(Collapse(s)[0])
  {
  }

  // ---------------------------------------------------------------------------
  // Lexicographic order (`String.compareTo`)
  // ---------------------------------------------------------------------------

  /** `a.compareTo(b) < 0`: the first differing character decides, a proper prefix comes first. */
  predicate Less(a: string, b: string)
    decreases |a|
  {
    if a == [] then b != []
    else if b == [] then false
    else if a[0] == b[0] then Less(a[1..], b[1..])
    else a[0] < b[0]
  }

  predicate LessEq(a: string, b: string) {
    a == b || Less(a, b)
  }

  lemma {:induction false} LessIrreflexive(a: string)
    ensures !Less(a, a)
    decreases |a|
  {
    if a != [] {
      LessIrreflexive(a[1..]);
    }
  }

  lemma {:induction false} LessAsymmetric(a: string, b: string)
    requires Less(a, b)
    ensures !Less(b, a)
    decreases |a|
  {
    if a != [] && b != [] && a[0] == b[0] {
      LessAsymmetric(a[1..], b[1..]);
    }
  }

  lemma {:induction false} LessTransitive(a: string, b: string, c: string)
    requires Less(a, b) && Less(b, c)
    ensures Less(a, c)
    decreases |a|
  {
    if a != [] && b != [] && c != [] && a[0] == b[0] && b[0] == c[0] {
      LessTransitive(a[1..], b[1..], c[1..]);
    }
  }

  lemma {:induction false} LessTotal(a: string, b: string)
    requires a != b
    ensures Less(a, b) || Less(b, a)
    decreases |a|
  {
    if a != [] && b != [] && a[0] == b[0] {
      assert a == [a[0]] + a[1..] && b == [b[0]] + b[1..];
      LessTotal(a[1..], b[1..]);
    }
  }

  // ---------------------------------------------------------------------------
  // split / join on one separator character
  // ---------------------------------------------------------------------------

  /** Index of the first `sep` in `s`, or `|s|` when there is none. */
  function IndexOf(s: string, sep: char): (i: nat)
    ensures i <= |s|
    ensures i < |s| ==> s[i] == sep
    ensures forall k :: 0 <= k < i ==> s[k] != sep
  {
    if s == [] then 0
    else if s[0] == sep then 0
    else 1 + IndexOf(s[1..], sep)
  }

  /** `s.split(sep, -1)` for a one-character literal separator: every field, empty ones included. */
  function Split(s: string, sep: char): (fields: seq<string>)
    ensures |fields| >= 1
    ensures forall k :: 0 <= k < |fields| ==> sep !in fields[k]
    decreases |s|
  {
    var i := IndexOf(s, sep);
    if i == |s| then [s] else [s[..i]] + Split(s[i + 1..], sep)
  }

  /** Joins fields with one separator between consecutive fields. */
  function Join(fields: seq<string>, sep: char): string {
    if |fields| == 0 then []
    else if |fields| == 1 then fields[0]
    else fields[0] + [sep] + Join(fields[1..], sep)
  }

  /** Splitting and re-joining gives the original string back. */
  lemma {:induction false} JoinSplit(s: string, sep: char)
    ensures Join(Split(s, sep), sep) == s
    decreases |s|
  {
    var i := IndexOf(s, sep);
    if i < |s| {
      var rest := s[i + 1..];
      var f := Split(rest, sep);
      JoinSplit(rest, sep);
      assert Split(s, sep) == [s[..i]] + f;
      assert ([s[..i]] + f)[1..] == f;
      assert Join([s[..i]] + f, sep) == s[..i] + [sep] + Join(f, sep);
      assert s == s[..i] + [sep] + rest;
    }
  }

  /** Joining fields that do not contain the separator and splitting again gives the fields back. */
  lemma {:induction false} SplitJoin(fields: seq<string>, sep: char)
    requires |fields| >= 1
    requires forall k :: 0 <= k < |fields| ==> sep !in fields[k]
    ensures Split(Join(fields, sep), sep) == fields
  {
    if |fields| == 1 {
      assert IndexOf(fields[0], sep) == |fields[0]|;
    } else {
      var rest := fields[1..];
      SplitJoin(rest, sep);
      SplitCons(fields[0], Join(rest, sep), sep);
      assert fields == [fields[0]] + rest;
    }
  }

  /** A separator-free field in front of a separator is split off as the first field. */
  lemma SplitCons(f: string, rest: string, sep: char)
    requires sep !in f
    ensures Split(f + [sep] + rest, sep) == [f] + Split(rest, sep)
  {
    var s := f + [sep] + rest;
    assert s == f + ([sep] + rest);
    IndexOfAfterPrefix(f, [sep] + rest, sep);
    assert s[..|f|] == f;
    assert s[|f| + 1..] == rest;
  }

  lemma {:induction false} IndexOfAfterPrefix(a: string, b: string, sep: char)
    requires sep !in a
    requires b != [] && b[0] == sep
    ensures IndexOf(a + b, sep) == |a|
    decreases |a|
  {
    if a != [] {
      assert (a + b)[1..] == a[1..] + b;
      IndexOfAfterPrefix(a[1..], b, sep);
    } else {
      assert a + b == b;
    }
  }

  /** Java's `split` without a limit: the same fields with the trailing empty ones removed (at least one field is kept for an empty input). */
  function DropTrailingEmpty(fields: seq<string>): (r: seq<string>)
    ensures |r| <= |fields| && r == fields[..|r|]
    ensures r == [] || r[|r| - 1] != []
    ensures forall k :: |r| <= k < |fields| ==> fields[k] == []
  {
    if fields == [] || fields[|fields| - 1] != [] then fields
    else DropTrailingEmpty(fields[..|fields| - 1])
  }

  // ---------------------------------------------------------------------------
  // Integers
  // ---------------------------------------------------------------------------

  const IntMin: int := -0x8000_0000
  const IntMax: int := 0x7fff_ffff

  predicate IsInt32(n: int) {
    IntMin <= n <= IntMax
  }

  predicate AllDigits(s: string) {
    forall k :: 0 <= k < |s| ==> IsDigit(s[k])
  }

  function DigitValue(c: char): int
    requires IsDigit(c)
  {
    c as int - '0' as int
  }

  /** Decimal value of a digit string, most significant digit first. */
  function DigitsValue(s: string): (v: nat)
    requires AllDigits(s)
    decreases |s|
  {
    if s == [] then 0 else DigitsValue(s[..|s| - 1]) * 10 + DigitValue(s[|s| - 1])
  }

  /** `Integer.parseInt`: an optional sign, at least one digit, and a value in the 32-bit range. */
  function ParseInt(s: string): Option<int> {
    if s == [] then None
    else
      var neg := s[0] == '-';
      var body := if s[0] == '-' || s[0] == '+' then s[1..] else s;
      if body == [] || !AllDigits(body) then None
      else
        var d: int := DigitsValue(body);
        var v := if neg then -d else d;
        if IsInt32(v) then Some(v) else None
  }

  function DigitChar(d: int): (c: char)
    requires 0 <= d < 10
    ensures IsDigit(c) && DigitValue(c) == d
  {
    ('0' as int + d) as char
  }

  /** Decimal digits of a natural number, without leading zeros. */
  function NatToString(n: nat): (s: string)
    ensures s != [] && AllDigits(s)
    ensures DigitsValue(s) == n
    decreases n
  {
    if n < 10 then [DigitChar(n)]
    else
      var p := NatToString(n / 10);
      var s := p + [DigitChar(n % 10)];
      assert s[..|s| - 1] == p;
      s
  }

  /** `Integer.toString` / string concatenation of an `int`. */
  function IntToString(n: int): (s: string)
    ensures s != []
  {
    if n < 0 then ['-'] + NatToString(-n) else NatToString(n)
  }

  /** Printing an `int` and parsing it back gives the same value. */
  lemma IntRoundTrip(n: int)
    requires IsInt32(n)
    ensures ParseInt(IntToString(n)) == Some(n)
  {
    if n < 0 {
      var s := IntToString(n);
      assert s[1..] == NatToString(-n);
    } else {
      var s := NatToString(n);
      assert IsDigit(s[0]);
    }
  }

  /** Three comma-free fields joined by commas split back into the same three fields. */
  lemma SplitThree(x: string, y: string, z: string)
    requires ',' !in x && ',' !in y && ',' !in z
    ensures Split(x + "," + y + "," + z, ',') == [x, y, z]
  {
    var fields := [x, y, z];
    assert fields[1..] == [y, z];
    assert fields[1..][1..] == [z];
    assert Join(fields[1..], ',') == y + "," + z;
    assert Join(fields, ',') == x + "," + y + "," + z;
    SplitJoin(fields, ',');
  }

  /** Two comma-free fields joined by a comma split back into the same two fields. */
  lemma SplitTwo(x: string, y: string)
    requires ',' !in x && ',' !in y
    ensures Split(x + "," + y, ',') == [x, y]
  {
    assert [x, y][1..] == [y];
    assert Join([x, y], ',') == x + "," + y;
    SplitJoin([x, y], ',');
  }

  /** A printed number never contains a comma and never ends in a blank. */
  lemma PrintedNumber(n: int)
    ensures ',' !in IntToString(n)
    ensures !IsTrimChar(IntToString(n)[|IntToString(n)| - 1])
    ensures !IsTrimChar(IntToString(n)[0])
  {
    var s := IntToString(n);
    if n < 0 {
      assert s[|s| - 1] == NatToString(-n)[|NatToString(-n)| - 1];
    }
  }
}
