/**
 * A `find`-like query over an in-memory file table (q15_unix_find_predicates,
 * FileFinder.java).
 *
 * Files are absolute paths with sizes in MB. A query is a list of rules
 * "ruleId,dir,arg" — rule 1 selects the files under `dir` strictly larger
 * than `arg` MB, rule 2 the files under `dir` whose path ends with `arg` —
 * combined left to right by "AND", "OR" and "AND NOT". The answer is the
 * selected paths in ascending order, each once.
 */
module FileFinder {
  import opened Common
  import opened Strings
  import opened Ordering

  /** Path -> size in MB. */
  type Files = map<string, int>

  datatype FindError =
    | InvalidRule(rule: string)
    | BadNumber(text: string)
    | UnknownRuleId(id: int)
    | MissingOperator(index: int)
    | UnsupportedOperator(op: string)

  /** `addFile`: add or replace the entry for a path. */
  function AddFile(files: Files, path: string, size: int): (r: Files)
    ensures path in r && r[path] == size
    ensures forall p :: p != path ==> (p in r <==> p in files)
    ensures forall p :: p != path && p in files ==> r[p] == files[p]
  {
    files[path := size]
  }

  // ---------------------------------------------------------------------------
  // Paths
  // ---------------------------------------------------------------------------

  predicate StartsWith(s: string, prefix: string) {
    |prefix| <= |s| && s[..|prefix|] == prefix
  }

  predicate EndsWith(s: string, suffix: string) {
    |suffix| <= |s| && s[|s| - |suffix|..] == suffix
  }

  /**
   * `isUnderDir`: "/" holds every absolute path; any other directory holds
   * the paths that start with it followed by a slash, the slash added
   * unless the directory already ends with one.
   */
  function IsUnderDir(path: string, dir: string): (r: bool)
    ensures dir == "/" ==> (r <==> StartsWith(path, "/"))
    ensures dir != "/" && EndsWith(dir, "/") ==> (r <==> StartsWith(path, dir))
    ensures dir != "/" && !EndsWith(dir, "/") ==> (r <==> StartsWith(path, dir + "/"))
  {
    if dir == "/" then StartsWith(path, "/")
    else
      var prefix := if EndsWith(dir, "/") then dir else dir + "/";
      StartsWith(path, prefix)
  }

  /** A trailing slash on a directory other than the root changes nothing. */
  lemma TrailingSlashIgnored(path: string, dir: string)
    requires !EndsWith(dir, "/") && dir != []
    ensures IsUnderDir(path, dir + "/") == IsUnderDir(path, dir)
  {
    assert EndsWith(dir + "/", "/");
  }

  /** A directory does not hold a sibling whose name merely extends its own, but holds its children. */
  lemma SiblingNotUnder(dir: string, name: string, child: string)
    requires dir != "/" && dir != [] && !EndsWith(dir, "/") && name != [] && name[0] != '/'
    ensures !IsUnderDir(dir + name, dir)
    ensures IsUnderDir(dir + "/" + child, dir)
  {
    assert (dir + name)[|dir|] == name[0];
    assert (dir + "/" + child)[..|dir| + 1] == dir + "/";
  }

  /** Holding is hereditary: whatever a subdirectory holds, its parent holds. */
  lemma UnderSubdirectory(path: string, dir: string, name: string)
    requires dir != "/" && !EndsWith(dir, "/") && name != [] && !EndsWith(name, "/")
    requires IsUnderDir(path, dir + "/" + name)
    ensures IsUnderDir(path, dir)
  {
    var sub := dir + "/" + name;
    assert !EndsWith(sub, "/") by {
      assert sub[|sub| - 1] == name[|name| - 1];
      assert name[|name| - 1..] != "/";
    }
    assert (sub + "/")[..|dir + "/"|] == dir + "/";
  }

  // ---------------------------------------------------------------------------
  // Rules
  // ---------------------------------------------------------------------------

  /** A rule after parsing: the files under `dir` larger than `min` MB, or ending with `ext`. */
  datatype Rule = MinSize(dir: string, min: int) | Extension(dir: string, ext: string)

  /** The file test of a rule: strictly larger than the minimum, or ending with the extension (case-sensitive). */
  predicate Passes(files: Files, rule: Rule, p: string)
    requires p in files
  {
    match rule
    case MinSize(_, min) => files[p] > min
    case Extension(_, ext) => EndsWith(p, ext)
  }

  /** `evalMinSize` and `evalExtension`: the files a rule selects. */
  function Matches(files: Files, rule: Rule): set<string> {
    match rule
    case MinSize(dir, min) => set p | p in files && IsUnderDir(p, dir) && files[p] > min
    case Extension(dir, ext) => set p | p in files && IsUnderDir(p, dir) && EndsWith(p, ext)
  }

  /** A rule selects exactly the files under its directory that pass its test. */
  lemma MatchesMeaning(files: Files, rule: Rule)
    ensures forall p :: p in Matches(files, rule) <==> (p in files && IsUnderDir(p, rule.dir) && Passes(files, rule, p))
  {
  }

  /** Every field trimmed, in order. */
  function TrimAll(fields: seq<string>): (r: seq<string>)
    ensures |r| == |fields|
  {
    if fields == [] then [] else [Trim(fields[0])] + TrimAll(fields[1..])
  }

  /** Field k of the result is field k of the input, trimmed. */
  lemma {:induction false} TrimAllAt(fields: seq<string>, k: int)
    requires 0 <= k < |fields|
    ensures TrimAll(fields)[k] == Trim(fields[k])
  {
    if k > 0 {
      TrimAllAt(fields[1..], k - 1);
      assert fields[1..][k - 1] == fields[k];
    }
  }

  /** `splitAndTrim`: every comma-separated field, empty ones included, trimmed. */
  function SplitAndTrim(s: string): seq<string> {
    TrimAll(Split(s, ','))
  }

  /**
   * `evaluateRule`: fewer than three fields, a rule id or a rule 1 size
   * that is not a number, and a rule id other than 1 or 2 are errors; fields
   * after the third are ignored.
   */
  function ParseRule(text: string): Result<Rule, FindError> {
    var parts := SplitAndTrim(text);
    if |parts| < 3 then Err(InvalidRule(text))
    else
      match ParseInt(parts[0])
      case None => Err(BadNumber(parts[0]))
      case Some(id) =>
        if id == 1 then
          match ParseInt(parts[2])
          case None => Err(BadNumber(parts[2]))
          case Some(min) => Ok(MinSize(parts[1], min))
        else if id == 2 then Ok(Extension(parts[1], parts[2]))
        else Err(UnknownRuleId(id))
  }

  /**
   * `evaluateRule`: fewer than three fields is an invalid rule; a rule id, or
   * a rule 1 size, that is not a 32-bit number is a number error; a rule id
   * other than 1 or 2 is unknown; fields after the third are ignored.
   */
  lemma ParseRuleCases(text: string)
    ensures var parts := SplitAndTrim(text);
      && (|parts| < 3 <==> ParseRule(text) == Err(InvalidRule(text)))
      && (|parts| >= 3 && ParseInt(parts[0]).None? ==> ParseRule(text) == Err(BadNumber(parts[0])))
      && (|parts| >= 3 && ParseInt(parts[0]).Some? && ParseInt(parts[0]).value !in {1, 2} ==>
            ParseRule(text) == Err(UnknownRuleId(ParseInt(parts[0]).value)))
      && (|parts| >= 3 && ParseInt(parts[0]) == Some(1) && ParseInt(parts[2]).None? ==>
            ParseRule(text) == Err(BadNumber(parts[2])))
      && (ParseRule(text).Ok? <==>
            |parts| >= 3 && (ParseInt(parts[0]) == Some(2) || (ParseInt(parts[0]) == Some(1) && ParseInt(parts[2]).Some?)))
      && (ParseRule(text).Ok? ==> ParseRule(text).value.dir == parts[1])
      && (ParseRule(text).Ok? && ParseInt(parts[0]) == Some(1) ==>
            ParseRule(text).value == MinSize(parts[1], ParseInt(parts[2]).value))
      && (ParseRule(text).Ok? && ParseInt(parts[0]) == Some(2) ==>
            ParseRule(text).value == Extension(parts[1], parts[2]))
  {
  }

  /** The files a rule's text selects, or why the text is not a rule. */
  function EvaluateRule(files: Files, text: string): Result<set<string>, FindError> {
    match ParseRule(text)
    case Ok(rule) => Ok(Matches(files, rule))
    case Err(e) => Err(e)
  }

  /** The text of a rule, as a caller writes it. */
  function FormatRule(rule: Rule): string {
    match rule
    case MinSize(dir, min) => "1" + "," + dir + "," + IntToString(min)
    case Extension(dir, ext) => "2" + "," + dir + "," + ext
  }

  /** The fields a caller may write: no comma, no blank at either end. */
  predicate CleanField(s: string) {
    ',' !in s && IsTrimmed(s)
  }

  /** Three clean fields joined by commas split and trim back into themselves. */
  lemma CleanFields(x: string, y: string, z: string)
    requires CleanField(x) && CleanField(y) && CleanField(z)
    ensures var parts := SplitAndTrim(x + "," + y + "," + z);
      |parts| == 3 && parts[0] == x && parts[1] == y && parts[2] == z
  {
    var raw := Split(x + "," + y + "," + z, ',');
    SplitThree(x, y, z);
    TrimAllAt(raw, 0);
    TrimAllAt(raw, 1);
    TrimAllAt(raw, 2);
    TrimOfTrimmed(x);
    TrimOfTrimmed(y);
    TrimOfTrimmed(z);
  }

  /** A rule written out with clean fields and a 32-bit size parses back to itself. */
  lemma ParseFormat(rule: Rule)
    requires CleanField(rule.dir)
    requires rule.MinSize? ==> IsInt32(rule.min)
    requires rule.Extension? ==> CleanField(rule.ext)
    ensures ParseRule(FormatRule(rule)) == Ok(rule)
  {
    match rule
    case MinSize(dir, min) =>
      PrintedNumber(min);
      CleanFields("1", dir, IntToString(min));
      IntRoundTrip(min);
      IntRoundTrip(1);
    case Extension(dir, ext) =>
      CleanFields("2", dir, ext);
      IntRoundTrip(2);
  }

  /** `ruleResults`: every rule evaluated in order, stopping at the first rule that fails. */
  function EvaluateAll(files: Files, rules: seq<string>): Result<seq<set<string>>, FindError> {
    MapUntilError(text => EvaluateRule(files, text), rules)
  }

  /** Evaluation succeeds exactly when every rule does, and then holds each rule's result in order. */
  lemma EvaluateAllOk(files: Files, rules: seq<string>)
    ensures EvaluateAll(files, rules).Ok? <==> forall i :: 0 <= i < |rules| ==> EvaluateRule(files, rules[i]).Ok?
    ensures EvaluateAll(files, rules).Ok? ==>
              |EvaluateAll(files, rules).value| == |rules| &&
              forall i :: 0 <= i < |rules| ==> EvaluateRule(files, rules[i]) == Ok(EvaluateAll(files, rules).value[i])
  {
    MapUntilErrorOk(text => EvaluateRule(files, text), rules);
  }

  /** The error of a failed evaluation is that of the first rule that fails. */
  lemma EvaluateAllFirstError(files: Files, rules: seq<string>)
    requires EvaluateAll(files, rules).Err?
    ensures exists i :: 0 <= i < |rules| && EvaluateRule(files, rules[i]) == Err(EvaluateAll(files, rules).error) &&
              forall j :: 0 <= j < i ==> EvaluateRule(files, rules[j]).Ok?
  {
    MapUntilErrorFirst(text => EvaluateRule(files, text), rules);
  }

  // ---------------------------------------------------------------------------
  // Combining rule results
  // ---------------------------------------------------------------------------

  datatype Op = And | Or | AndNot

  function UpperChar(c: char): char {
    if IsLowerLetter(c) then (c as int - 'a' as int + 'A' as int) as char else c
  }

  /** `toUpperCase(Locale.ROOT)` on the ASCII letters. */
  function ToUpper(s: string): (r: string)
    ensures |r| == |s|
    ensures forall k :: 0 <= k < |s| ==> r[k] == UpperChar(s[k])
  {
    if s == [] then [] else [UpperChar(s[0])] + ToUpper(s[1..])
  }

  /** The operator as `runQuery` reads it: trimmed and upper-cased. */
  function Normalize(op: string): string {
    ToUpper(Trim(op))
  }

  function ParseOp(op: string): Option<Op> {
    var n := Normalize(op);
    if n == "AND" then Some(And)
    else if n == "OR" then Some(Or)
    else if n == "AND NOT" then Some(AndNot)
    else None
  }

  /** Exactly the three names, after trimming and upper-casing, are operators. */
  lemma ParseOpNames(op: string)
    ensures ParseOp(op) == Some(And) <==> Normalize(op) == "AND"
    ensures ParseOp(op) == Some(Or) <==> Normalize(op) == "OR"
    ensures ParseOp(op) == Some(AndNot) <==> Normalize(op) == "AND NOT"
    ensures ParseOp(op).None? <==> Normalize(op) !in {"AND", "OR", "AND NOT"}
  {
  }

  /** Whether a path in the accumulated result and in the next rule's result stays in. */
  predicate Keep(op: Op, inAcc: bool, inRhs: bool) {
    match op
    case And => inAcc && inRhs
    case Or => inAcc || inRhs
    case AndNot => inAcc && !inRhs
  }

  /** `retainAll`, `addAll` and `removeAll`. */
  function Combine(op: Op, acc: set<string>, rhs: set<string>): (r: set<string>)
    ensures forall x :: x in r <==> Keep(op, x in acc, x in rhs)
  {
    match op
    case And => acc * rhs
    case Or => acc + rhs
    case AndNot => acc - rhs
  }

  /** Operator `j` exists and is one of the three. */
  predicate OpOk(ops: seq<string>, j: int) {
    0 <= j < |ops| && ParseOp(ops[j]).Some?
  }

  /** The first `n` operators all exist and are known. */
  predicate OpsOk(ops: seq<string>, n: int) {
    forall j :: 0 <= j < n ==> OpOk(ops, j)
  }

  /** The error for a bad operator `j`: missing from the list, or not one of the three. */
  function OpError(ops: seq<string>, j: int): FindError
    requires 0 <= j
  {
    if j >= |ops| then MissingOperator(j) else UnsupportedOperator(Normalize(ops[j]))
  }

  /**
   * The first `n` operators, parsed in order; the first missing or unknown
   * one is the error. `runQuery` reads operator `i - 1` only when it reaches
   * result `i`, after every rule has been evaluated, so reading them all
   * up front reports the same error.
   */
  function ParseOps(ops: seq<string>, n: nat): (r: Result<seq<Op>, FindError>)
    ensures r.Ok? <==> OpsOk(ops, n)
    ensures r.Ok? ==> |r.value| == n && forall j :: 0 <= j < n ==> OpOk(ops, j) && ParseOp(ops[j]) == Some(r.value[j])
    ensures r.Err? ==> exists j :: 0 <= j < n && OpsOk(ops, j) && !OpOk(ops, j) && r.error == OpError(ops, j)
  {
    if n == 0 then Ok([])
    else
      match ParseOps(ops, n - 1)
      case Err(e) => Err(e)
      case Ok(prefix) =>
        if !OpOk(ops, n - 1) then Err(OpError(ops, n - 1))
        else Ok(prefix + [ParseOp(ops[n - 1]).value])
  }

  /** Path x is selected by the first n + 1 rule results combined left to right by `ops`. */
  predicate Selected(x: string, results: seq<set<string>>, ops: seq<Op>, n: nat)
    requires n < |results| && n <= |ops|
  {
    if n == 0 then x in results[0]
    else Keep(ops[n - 1], Selected(x, results, ops, n - 1), x in results[n])
  }

  /** The left-to-right fold of `runQuery` over the rule results. */
  method Fold(results: seq<set<string>>, ops: seq<Op>) returns (acc: set<string>)
    requires results != [] && |ops| == |results| - 1
    ensures forall x :: x in acc <==> Selected(x, results, ops, |ops|)
  {
    acc := results[0];
    var i := 1;
    while i < |results|
      invariant 1 <= i <= |results|
      invariant forall x :: x in acc <==> Selected(x, results, ops, i - 1)
    {
      acc := Combine(ops[i - 1], acc, results[i]);
      i := i + 1;
    }
  }

  /**
   * `runQuery`: no rules give no paths; otherwise every rule is evaluated
   * first, and the first bad rule is the error; then the first missing or
   * unknown operator is the error; otherwise the answer is the selected
   * paths in strictly ascending order.
   */
  method RunQuery(files: Files, rules: seq<string>, ops: seq<string>) returns (r: Result<seq<string>, FindError>)
    ensures rules == [] ==> r == Ok([])
    ensures rules != [] && EvaluateAll(files, rules).Err? ==> r == Err(EvaluateAll(files, rules).error)
    ensures rules != [] && EvaluateAll(files, rules).Ok? ==>
              (r.Ok? <==> OpsOk(ops, |rules| - 1)) &&
              (r.Err? ==> r == Err(ParseOps(ops, |rules| - 1).error))
    ensures r.Ok? ==> forall i, j :: 0 <= i < j < |r.value| ==> Less(r.value[i], r.value[j])
    ensures r.Ok? ==> forall x :: x in r.value ==> exists i :: 0 <= i < |rules| && x in EvaluateAll(files, rules).value[i]
    ensures r.Ok? && rules != [] ==>
              forall x :: x in r.value <==>
                Selected(x, EvaluateAll(files, rules).value, ParseOps(ops, |rules| - 1).value, |rules| - 1)
  {
    if rules == [] {
      return Ok([]);
    }
    var all := EvaluateAll(files, rules);
    if all.Err? {
      return Err(all.error);
    }
    var parsed := ParseOps(ops, |rules| - 1);
    if parsed.Err? {
      return Err(parsed.error);
    }
    var selected := Fold(all.value, parsed.value);
    forall x | x in selected
      ensures exists i :: 0 <= i < |rules| && x in all.value[i]
    {
      SelectedInSome(x, all.value, parsed.value, |rules| - 1);
    }
    return Ok(SortedSet(selected));
  }

  /** Every selected path is in one of the rule results. */
  lemma {:induction false} SelectedInSome(x: string, results: seq<set<string>>, ops: seq<Op>, n: nat)
    requires n < |results| && n <= |ops|
    requires Selected(x, results, ops, n)
    ensures exists i :: 0 <= i <= n && x in results[i]
  {
    if n > 0 && !(x in results[n]) {
      SelectedInSome(x, results, ops, n - 1);
    }
  }

  /** A rule only ever selects files of the table. */
  lemma RuleSelectsFiles(files: Files, text: string)
    requires EvaluateRule(files, text).Ok?
    ensures EvaluateRule(files, text).value <= files.Keys
  {
    MatchesMeaning(files, ParseRule(text).value);
  }

  /** Every rule result of a successful evaluation lies within the table. */
  lemma ResultsAreFiles(files: Files, rules: seq<string>, results: seq<set<string>>)
    requires EvaluateAll(files, rules) == Ok(results)
    ensures forall i, y :: 0 <= i < |results| && y in results[i] ==> y in files
  {
    EvaluateAllOk(files, rules);
    forall i, y | 0 <= i < |results| && y in results[i]
      ensures y in files
    {
      RuleSelectsFiles(files, rules[i]);
    }
  }

  /** With only "OR" operators a query answers the union of the rule results. */
  lemma {:induction false} OrIsUnion(x: string, results: seq<set<string>>, ops: seq<Op>, n: nat)
    requires n < |results| && n <= |ops|
    requires forall j :: 0 <= j < n ==> ops[j] == Or
    ensures Selected(x, results, ops, n) <==> exists i :: 0 <= i <= n && x in results[i]
  {
    if n > 0 {
      OrIsUnion(x, results, ops, n - 1);
      if x in results[n] {
        assert Selected(x, results, ops, n);
      }
    }
  }

  /** With only "AND" operators a query answers the intersection of the rule results. */
  lemma {:induction false} AndIsIntersection(x: string, results: seq<set<string>>, ops: seq<Op>, n: nat)
    requires n < |results| && n <= |ops|
    requires forall j :: 0 <= j < n ==> ops[j] == And
    ensures Selected(x, results, ops, n) <==> forall i :: 0 <= i <= n ==> x in results[i]
  {
    if n > 0 {
      AndIsIntersection(x, results, ops, n - 1);
    }
  }
}
