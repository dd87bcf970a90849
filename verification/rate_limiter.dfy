/**
 * The per-resource rate limiter (q34-rate-limiter, Solution.java).
 *
 * Each resource id carries a limit "maxRequests,timePeriod" and one of two
 * strategies. The fixed window counts requests per window id
 * `timestamp / timePeriod` (Java's truncating division); the sliding window
 * keeps the timestamps of the allowed requests and forgets those older than
 * `timestamp - timePeriod + 1`.
 */
module RateLimiter {
  import opened Common
  import Strings
  import JavaMath

  datatype Counter =
    | Fixed(window: int, count: nat)
    | Sliding(log: seq<int>)

  datatype Limiter = Limiter(max: int, period: int, counter: Counter)

  type Limiters = map<string, Limiter>

  datatype Error =
    | BadLimitsShape     // the limits string does not split into two fields
    | BadNumber          // a field is not a 32-bit integer
    | UnknownStrategy
    | UnknownResource
    | DivideByZero       // a fixed window with a time period of zero

  const FixedName: string := "fixed-window-counter"
  const SlidingName: string := "sliding-window-counter"

  function Max0(n: int): nat {
    if n < 0 then 0 else n
  }

  /** Timestamps in strictly increasing order, as the callers promise to supply them. */
  predicate Increasing(s: seq<int>) {
    forall i, j :: 0 <= i < j < |s| ==> s[i] < s[j]
  }

  /** The counter never holds more than `maxRequests` requests. */
  predicate Valid(l: Limiter) {
    match l.counter
    case Fixed(_, count) => count <= Max0(l.max)
    case Sliding(log) => |log| <= Max0(l.max) && Increasing(log)
  }

  // ---------------------------------------------------------------------------
  // addResource
  // ---------------------------------------------------------------------------

  function Fields(limits: string): seq<string> {
    Strings.DropTrailingEmpty(Strings.Split(limits, ','))
  }

  /** The two numbers of a "maxRequests,timePeriod" string, each trimmed before parsing. */
  function ParseLimits(limits: string): (r: Result<(int, int), Error>)
    ensures r.Ok? <==>
              |Fields(limits)| == 2
              && Strings.ParseInt(Strings.Trim(Fields(limits)[0])).Some?
              && Strings.ParseInt(Strings.Trim(Fields(limits)[1])).Some?
    ensures r.Ok? ==> Strings.IsInt32(r.value.0) && Strings.IsInt32(r.value.1)
    ensures r.Err? ==> (r.error == BadLimitsShape <==> |Fields(limits)| != 2)
  {
    var parts := Fields(limits);
    if |parts| != 2 then Err(BadLimitsShape)
    else
      var a := Strings.ParseInt(Strings.Trim(parts[0]));
      var b := Strings.ParseInt(Strings.Trim(parts[1]));
      if a.None? || b.None? then Err(BadNumber) else Ok((a.value, b.value))
  }

  /** A fresh counter for the named strategy, or nothing for an unknown name. */
  function Initial(strategy: string): (r: Option<Counter>)
    ensures r.Some? <==> strategy == FixedName || strategy == SlidingName
    ensures strategy == FixedName ==> r == Some(Fixed(-1, 0))
    ensures strategy == SlidingName ==> r == Some(Sliding([]))
  {
    if strategy == FixedName then Some(Fixed(-1, 0))
    else if strategy == SlidingName then Some(Sliding([]))
    else None
  }

  /** `addResource`: parse the limits, pick the strategy, and install a fresh limiter (replacing any old one). */
  function AddResource(m: Limiters, id: string, strategy: string, limits: string): (r: Result<Limiters, Error>)
    ensures r.Ok? <==> ParseLimits(limits).Ok? && Initial(strategy).Some?
    ensures ParseLimits(limits).Err? ==> r == Err(ParseLimits(limits).error)
    ensures ParseLimits(limits).Ok? && Initial(strategy).None? ==> r == Err(UnknownStrategy)
    ensures r.Ok? ==> r.value == m[id := Limiter(ParseLimits(limits).value.0, ParseLimits(limits).value.1, Initial(strategy).value)]
    ensures r.Ok? ==> Valid(r.value[id])
  {
    var p := ParseLimits(limits);
    if p.Err? then Err(p.error)
    else
      var c := Initial(strategy);
      if c.None? then Err(UnknownStrategy)
      else Ok(m[id := Limiter(p.value.0, p.value.1, c.value)])
  }

  // ---------------------------------------------------------------------------
  // isAllowed
  // ---------------------------------------------------------------------------

  /** One request against a fixed window: a new window id resets the count, then allow while below the limit. */
  function FixedStep(l: Limiter, t: int): (r: (Limiter, bool))
    requires l.counter.Fixed? && l.period != 0
    ensures r.0.max == l.max && r.0.period == l.period && r.0.counter.Fixed?
    ensures r.0.counter.window == JavaMath.Div(t, l.period)
    ensures Valid(l) ==> Valid(r.0)
  {
    var w := JavaMath.Div(t, l.period);
    var c := if w != l.counter.window then 0 else l.counter.count;
    if c < l.max then (l.(counter := Fixed(w, c + 1)), true)
    else (l.(counter := Fixed(w, c)), false)
  }

  /** Drops the timestamps at the front of the log that fall before `start`. */
  function DropBefore(log: seq<int>, start: int): (r: seq<int>)
    ensures |r| <= |log| && r == log[|log| - |r|..]
    ensures forall k :: 0 <= k < |log| - |r| ==> log[k] < start
    ensures r == [] || r[0] >= start
  {
    if log != [] && log[0] < start then DropBefore(log[1..], start) else log
  }

  /** One request against a sliding-window log: forget what is older than the window, then allow (and log) while below the limit. */
  function Slide(log: seq<int>, max: int, period: int, t: int): (r: (seq<int>, bool))
    ensures r.1 ==> r.0 == DropBefore(log, t - period + 1) + [t]
    ensures !r.1 ==> r.0 == DropBefore(log, t - period + 1)
  {
    var kept := DropBefore(log, t - period + 1);
    if |kept| < max then (kept + [t], true) else (kept, false)
  }

  function SlidingStep(l: Limiter, t: int): (r: (Limiter, bool))
    requires l.counter.Sliding?
    ensures r.0.max == l.max && r.0.period == l.period && r.0.counter.Sliding?
  {
    var s := Slide(l.counter.log, l.max, l.period, t);
    (l.(counter := Sliding(s.0)), s.1)
  }

  /** A strategy's `isAllowed`; a fixed window with period 0 divides by zero. */
  function Check(l: Limiter, t: int): (r: Result<(Limiter, bool), Error>)
    ensures r.Err? <==> l.counter.Fixed? && l.period == 0
    ensures r.Err? ==> r.error == DivideByZero
    ensures r.Ok? ==> r.value.0.max == l.max && r.value.0.period == l.period
    ensures r.Ok? ==> r.value.0.counter.Fixed? == l.counter.Fixed?
  {
    match l.counter
    case Fixed(_, _) => if l.period == 0 then Err(DivideByZero) else Ok(FixedStep(l, t))
    case Sliding(_) => Ok(SlidingStep(l, t))
  }

  /** `isAllowed`: an unknown resource is an error; otherwise only that resource's counter changes. */
  function IsAllowed(m: Limiters, id: string, t: int): (r: Result<(Limiters, bool), Error>)
    ensures id !in m ==> r == Err(UnknownResource)
    ensures id in m ==> (r.Ok? <==> Check(m[id], t).Ok?)
    ensures r.Ok? ==>
              && r.value.0.Keys == m.Keys
              && (forall k :: k in m && k != id ==> r.value.0[k] == m[k])
              && r.value.0[id] == Check(m[id], t).value.0
              && r.value.1 == Check(m[id], t).value.1
  {
    if id !in m then Err(UnknownResource)
    else
      var c := Check(m[id], t);
      if c.Err? then Err(c.error) else Ok((m[id := c.value.0], c.value.1))
  }

  // ---------------------------------------------------------------------------
  // Properties: parsing
  // ---------------------------------------------------------------------------

  lemma NoTrimOrCommaInInt(n: int)
    ensures Strings.IsTrimmed(Strings.IntToString(n))
    ensures ',' !in Strings.IntToString(n)
  {
    var s := Strings.IntToString(n);
    if n < 0 {
      var d := Strings.NatToString(-n);
      assert s == ['-'] + d;
      assert forall k :: 1 <= k < |s| ==> s[k] == d[k - 1];
    }
  }

  /** Printing two integers as "max,period" and parsing them back gives the same two integers. */
  lemma ParseLimitsRoundTrip(max: int, period: int)
    requires Strings.IsInt32(max) && Strings.IsInt32(period)
    ensures ParseLimits(Strings.IntToString(max) + "," + Strings.IntToString(period)) == Ok((max, period))
  {
    var a := Strings.IntToString(max);
    var b := Strings.IntToString(period);
    NoTrimOrCommaInInt(max);
    NoTrimOrCommaInInt(period);
    var s := a + "," + b;
    assert Strings.Join([a, b], ',') == s by {
      assert [a, b][1..] == [b];
    }
    Strings.SplitJoin([a, b], ',');
    assert Strings.Split(s, ',') == [a, b];
    assert Fields(s) == [a, b];
    Strings.TrimOfTrimmed(a);
    Strings.TrimOfTrimmed(b);
    Strings.IntRoundTrip(max);
    Strings.IntRoundTrip(period);
    assert Strings.ParseInt(Strings.Trim(a)) == Some(max);
    assert Strings.ParseInt(Strings.Trim(b)) == Some(period);
  }

  // ---------------------------------------------------------------------------
  // Properties: fixed window
  // ---------------------------------------------------------------------------

  /** Runs the fixed window over `ts`, giving the final limiter and how many requests were allowed. */
  function FixedRun(l: Limiter, ts: seq<int>): (r: (Limiter, nat))
    requires l.counter.Fixed? && l.period != 0
    ensures r.0.counter.Fixed? && r.0.period == l.period && r.0.max == l.max
    ensures r.1 <= |ts|
    decreases |ts|
  {
    if ts == [] then (l, 0)
    else
      var s := FixedStep(l, ts[0]);
      var rest := FixedRun(s.0, ts[1..]);
      (rest.0, rest.1 + if s.1 then 1 else 0)
  }

  /** Within one window the limiter lets through exactly as many requests as the budget left in that window. */
  lemma {:induction false} FixedWithinWindow(l: Limiter, ts: seq<int>)
    requires l.counter.Fixed? && l.period != 0 && Valid(l)
    requires forall k :: 0 <= k < |ts| ==> JavaMath.Div(ts[k], l.period) == l.counter.window
    ensures FixedRun(l, ts).1 == if |ts| < Max0(l.max) - l.counter.count then |ts| else Max0(l.max) - l.counter.count
    decreases |ts|
  {
    if ts != [] {
      var s := FixedStep(l, ts[0]);
      assert s.0.counter.window == l.counter.window;
      assert s.0.counter.count == if s.1 then l.counter.count + 1 else l.counter.count;
      assert !s.1 ==> l.counter.count == Max0(l.max);
      forall k | 0 <= k < |ts[1..]| ensures JavaMath.Div(ts[1..][k], l.period) == s.0.counter.window {
        assert ts[1..][k] == ts[k + 1];
      }
      FixedWithinWindow(s.0, ts[1..]);
    }
  }

  /** A request in a new window starts a fresh count: it is allowed exactly when the limit is positive. */
  lemma FixedNewWindowResets(l: Limiter, t: int)
    requires l.counter.Fixed? && l.period != 0
    requires JavaMath.Div(t, l.period) != l.counter.window
    ensures FixedStep(l, t).1 <==> l.max > 0
    ensures FixedStep(l, t).0.counter.count == if l.max > 0 then 1 else 0
  {
  }

  // ---------------------------------------------------------------------------
  // Properties: sliding window
  // ---------------------------------------------------------------------------

  /** The logged timestamps at or after `start`, in order: the requests inside the window. */
  function InWindow(log: seq<int>, start: int): (r: seq<int>)
    ensures |r| <= |log|
  {
    if log == [] then []
    else (if log[0] >= start then [log[0]] else []) + InWindow(log[1..], start)
  }

  lemma {:induction false} InWindowAll(log: seq<int>, start: int)
    requires forall k :: 0 <= k < |log| ==> log[k] >= start
    ensures InWindow(log, start) == log
    decreases |log|
  {
    if log != [] {
      InWindowAll(log[1..], start);
      assert [log[0]] + log[1..] == log;
    }
  }

  /** On an increasing log, dropping from the front keeps exactly the timestamps inside the window. */
  lemma {:induction false} DropBeforeIsWindow(log: seq<int>, start: int)
    requires Increasing(log)
    ensures DropBefore(log, start) == InWindow(log, start)
    decreases |log|
  {
    if log != [] {
      if log[0] < start {
        DropBeforeIsWindow(log[1..], start);
      } else {
        InWindowAll(log, start);
      }
    }
  }

  /** A sliding-window request is allowed exactly when fewer than `maxRequests` allowed requests lie in `[t - period + 1, t]`, and it is then logged after them. */
  lemma {:induction false} SlideAllowsIff(log: seq<int>, max: int, period: int, t: int)
    requires Increasing(log)
    ensures Slide(log, max, period, t).1 <==> |InWindow(log, t - period + 1)| < max
    ensures Slide(log, max, period, t).1 ==> Slide(log, max, period, t).0 == InWindow(log, t - period + 1) + [t]
  {
    DropBeforeIsWindow(log, t - period + 1);
  }

  lemma IncreasingSuffix(log: seq<int>, d: nat)
    requires Increasing(log) && d <= |log|
    ensures Increasing(log[d..])
  {
    var s := log[d..];
    forall i, j | 0 <= i < j < |s| ensures s[i] < s[j] {
      assert s[i] == log[d + i] && s[j] == log[d + j];
    }
  }

  lemma IncreasingAppend(s: seq<int>, t: int)
    requires Increasing(s)
    requires forall k :: 0 <= k < |s| ==> s[k] < t
    ensures Increasing(s + [t])
  {
    var s' := s + [t];
    forall i, j | 0 <= i < j < |s'| ensures s'[i] < s'[j] {
      assert s'[i] == s[i];
    }
  }

  /** On a timestamp later than everything logged, the log stays increasing and never holds more than `maxRequests` entries. */
  lemma SlideKeepsBound(log: seq<int>, max: int, period: int, t: int)
    requires Increasing(log) && |log| <= Max0(max)
    requires forall k :: 0 <= k < |log| ==> log[k] < t
    ensures Increasing(Slide(log, max, period, t).0)
    ensures |Slide(log, max, period, t).0| <= Max0(max)
  {
    var kept := DropBefore(log, t - period + 1);
    var d := |log| - |kept|;
    IncreasingSuffix(log, d);
    assert forall k :: 0 <= k < |kept| ==> kept[k] == log[d + k];
    IncreasingAppend(kept, t);
  }

  /** Every step of a valid limiter on an increasing timestamp keeps it valid: the log never outgrows the limit. */
  lemma CheckPreservesValid(l: Limiter, t: int)
    requires Valid(l) && Check(l, t).Ok?
    requires l.counter.Sliding? ==> forall k :: 0 <= k < |l.counter.log| ==> l.counter.log[k] < t
    ensures Valid(Check(l, t).value.0)
  {
    if l.counter.Sliding? {
      SlideKeepsBound(l.counter.log, l.max, l.period, t);
    }
  }
}
