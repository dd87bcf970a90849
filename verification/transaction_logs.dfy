/**
 * Users with many transactions (q60-amazon-transaction-logs, Solution.java).
 *
 * A log line is "sender recipient amount", fields separated by runs of
 * whitespace. Each transaction counts once for the sender and once for the
 * recipient, a transaction to oneself counting once in all. The answer is
 * the users with at least `threshold` transactions, as decimal strings in
 * ascending numeric order.
 */
module TransactionLogs {
  import opened Common
  import opened Strings
  import opened Ordering

  /** `Integer.parseInt` threw on the text of an id. */
  datatype LogError = BadId(text: string)

  /**
   * One log line: a blank line or a line with fewer than two fields is
   * skipped (`None`); otherwise the first two fields are the sender and the
   * recipient, and the first that is not a 32-bit number is the error.
   */
  function ParseLog(log: string): Result<Option<(int, int)>, LogError> {
    var s := Trim(log);
    if s == [] then Ok(None)
    else
      var parts := Words(s);
      if |parts| < 2 then Ok(None)
      else
        match ParseInt(parts[0])
        case None => Err(BadId(parts[0]))
        case Some(sender) =>
          match ParseInt(parts[1])
          case None => Err(BadId(parts[1]))
          case Some(recipient) => Ok(Some((sender, recipient)))
  }

  /**
   * A line is skipped exactly when it has fewer than two whitespace-separated
   * fields (a blank line has none); a line that is read yields its first two
   * fields as numbers, and otherwise the first of them that is not a number
   * is the error.
   */
  lemma ParseLogCases(log: string)
    ensures IsTrimBlank(log) ==> ParseLog(log) == Ok(None)
    ensures ParseLog(log) == Ok(None) <==> |Words(Trim(log))| < 2
    ensures ParseLog(log).Ok? && ParseLog(log).value.Some? ==>
              var parts := Words(Trim(log));
              |parts| >= 2 && ParseInt(parts[0]) == Some(ParseLog(log).value.value.0) && ParseInt(parts[1]) == Some(ParseLog(log).value.value.1)
    ensures ParseLog(log).Err? ==>
              var parts := Words(Trim(log));
              |parts| >= 2 &&
              ((ParseLog(log).error == BadId(parts[0]) && ParseInt(parts[0]).None?) ||
               (ParseLog(log).error == BadId(parts[1]) && ParseInt(parts[0]).Some? && ParseInt(parts[1]).None?))
  {
  }

  /** A field as a caller writes it: non-empty, with nothing `trim` would remove (so no `\s` either). */
  predicate IsField(w: string) {
    w != [] && forall k :: 0 <= k < |w| ==> !IsTrimChar(w[k])
  }

  /** A field followed by a space and more text splits off as the first word. */
  lemma WordThen(w: string, rest: string)
    requires IsField(w)
    ensures Words(w + " " + rest) == [w] + Words(rest)
  {
    assert w + " " + rest == w + (" " + rest);
    WordsPrefix(w, " " + rest);
    WordsSkipSpace(" " + rest);
    assert (" " + rest)[1..] == rest;
  }

  /** Three fields joined by single spaces split back into those three fields. */
  lemma ThreeWords(a: string, b: string, c: string)
    requires IsField(a) && IsField(b) && IsField(c)
    ensures var w := Words(a + " " + b + " " + c);
      |w| == 3 && w[0] == a && w[1] == b && w[2] == c
  {
    assert a + " " + b + " " + c == a + " " + (b + " " + c);
    WordThen(a, b + " " + c);
    WordThen(b, c);
    assert c + [] == c;
    WordsPrefix(c, []);
  }

  /** Three fields joined by single spaces are already trimmed. */
  lemma LineTrimmed(a: string, b: string, c: string)
    requires IsField(a) && IsField(c)
    ensures Trim(a + " " + b + " " + c) == a + " " + b + " " + c
  {
    var line := a + " " + b + " " + c;
    assert line[0] == a[0];
    assert line[|line| - 1] == c[|c| - 1];
    TrimOfTrimmed(line);
  }

  /** A line written as "sender recipient amount" with a blank-free amount reads back as that transaction. */
  lemma ParseWritten(sender: int, recipient: int, amount: string)
    requires IsInt32(sender) && IsInt32(recipient) && IsField(amount)
    ensures ParseLog(IntToString(sender) + " " + IntToString(recipient) + " " + amount) == Ok(Some((sender, recipient)))
  {
    NoSpaceInNumber(sender);
    NoSpaceInNumber(recipient);
    LineTrimmed(IntToString(sender), IntToString(recipient), amount);
    ThreeWords(IntToString(sender), IntToString(recipient), amount);
    IntRoundTrip(sender);
    IntRoundTrip(recipient);
  }

  /** A printed number is a field: it holds no character `trim` removes. */
  lemma NoSpaceInNumber(n: int)
    ensures IsField(IntToString(n))
  {
    var s := IntToString(n);
    forall k | 0 <= k < |s| ensures !IsTrimChar(s[k]) {
      if n < 0 && k > 0 {
        assert s[k] == NatToString(-n)[k - 1];
      } else if n >= 0 {
        assert IsDigit(NatToString(n)[k]);
      }
    }
  }

  /** The transactions of the log lines, in order, skipped lines left out. */
  function Present(parsed: seq<Option<(int, int)>>): (r: seq<(int, int)>)
    ensures |r| <= |parsed|
  {
    if parsed == [] then []
    else if parsed[0].None? then Present(parsed[1..])
    else [parsed[0].value] + Present(parsed[1..])
  }

  /** Every line parsed in order; the first bad id stops the run, as the exception does. */
  function Transactions(logs: seq<string>): Result<seq<(int, int)>, LogError> {
    match MapUntilError(ParseLog, logs)
    case Ok(parsed) => Ok(Present(parsed))
    case Err(e) => Err(e)
  }

  /** The count for `u`; an absent user counts zero. */
  function Get(m: map<int, int>, u: int): int {
    if u in m then m[u] else 0
  }

  function Bump(m: map<int, int>, u: int): map<int, int> {
    m[u := Get(m, u) + 1]
  }

  /** The count map after the transactions, filled in order: the sender, then the recipient unless it is the sender. */
  function Tally(ts: seq<(int, int)>): map<int, int>
    decreases |ts|
  {
    if ts == [] then map[]
    else
      var t := ts[|ts| - 1];
      var m := Bump(Tally(ts[..|ts| - 1]), t.0);
      if t.1 != t.0 then Bump(m, t.1) else m
  }

  /** The number of transactions `u` takes part in, as sender or recipient. */
  function Involved(ts: seq<(int, int)>, u: int): nat {
    if ts == [] then 0 else (if ts[0].0 == u || ts[0].1 == u then 1 else 0) + Involved(ts[1..], u)
  }

  lemma {:induction false} InvolvedSnoc(ts: seq<(int, int)>, t: (int, int), u: int)
    ensures Involved(ts + [t], u) == Involved(ts, u) + (if t.0 == u || t.1 == u then 1 else 0)
    decreases |ts|
  {
    if ts != [] {
      assert (ts + [t])[1..] == ts[1..] + [t];
      InvolvedSnoc(ts[1..], t, u);
    }
  }

  /** The count map holds exactly the users of some transaction, each with the number of transactions it takes part in. */
  lemma {:induction false} TallyCounts(ts: seq<(int, int)>, u: int)
    ensures Get(Tally(ts), u) == Involved(ts, u)
    ensures u in Tally(ts) <==> Involved(ts, u) > 0
    decreases |ts|
  {
    if ts != [] {
      var init := ts[..|ts| - 1];
      var t := ts[|ts| - 1];
      assert ts == init + [t];
      TallyCounts(init, u);
      InvolvedSnoc(init, t, u);
    }
  }

  /** The users of the count map that reach the threshold. */
  function Qualifying(m: map<int, int>, threshold: int): set<int> {
    set u | u in m && m[u] >= threshold
  }

  /** `processLogs`: the qualifying users in ascending numeric order, printed; the first bad id is the error. */
  function ProcessLogs(logs: seq<string>, threshold: int): (r: Result<seq<string>, LogError>)
    ensures r.Err? <==> Transactions(logs).Err?
    ensures r.Err? ==> r.error == Transactions(logs).error
    ensures r.Ok? ==>
              var ids := SortedInts(Qualifying(Tally(Transactions(logs).value), threshold));
              |r.value| == |ids| && forall i :: 0 <= i < |ids| ==> r.value[i] == IntToString(ids[i])
  {
    match Transactions(logs)
    case Err(e) => Err(e)
    case Ok(ts) =>
      var ids := SortedInts(Qualifying(Tally(ts), threshold));
      Ok(seq(|ids|, i requires 0 <= i < |ids| => IntToString(ids[i])))
  }

  /**
   * The answer lists, in strictly ascending order, exactly the users that
   * take part in at least one transaction and in at least `threshold` of them.
   */
  lemma ProcessLogsMeaning(logs: seq<string>, threshold: int)
    requires Transactions(logs).Ok?
    ensures var ts := Transactions(logs).value;
      var ids := SortedInts(Qualifying(Tally(ts), threshold));
      && (forall i, j :: 0 <= i < j < |ids| ==> ids[i] < ids[j])
      && (forall u :: u in ids <==> Involved(ts, u) > 0 && Involved(ts, u) >= threshold)
  {
    var ts := Transactions(logs).value;
    forall u ensures u in Qualifying(Tally(ts), threshold) <==> Involved(ts, u) > 0 && Involved(ts, u) >= threshold {
      TallyCounts(ts, u);
    }
  }

  /** The processing fails exactly when some line has a bad id, and then with the first such line's error. */
  lemma ProcessLogsFirstError(logs: seq<string>, threshold: int)
    requires ProcessLogs(logs, threshold).Err?
    ensures exists i :: 0 <= i < |logs| && ParseLog(logs[i]) == Err(ProcessLogs(logs, threshold).error) &&
              forall j :: 0 <= j < i ==> ParseLog(logs[j]).Ok?
  {
    MapUntilErrorFirst(ParseLog, logs);
  }
}
