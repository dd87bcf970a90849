/**
 * The train platform manager (q32-train-platform-manager, Solution.java).
 *
 * Each platform keeps a chronological timeline of inclusive, disjoint
 * occupation intervals. A new train is scanned against every platform for
 * the first gap of `waitTime` slots at or after its arrival; the platform
 * with the smallest delay wins, ties going to the lower platform index.
 */
module TrainPlatform {
  import opened Common

  datatype Assignment = Assignment(train: string, platform: nat, start: int, end: int, delay: int)

  /** One platform's assignments, in the order of their start times. */
  type Timeline = seq<Assignment>

  datatype Manager = Manager(schedules: seq<Timeline>, index: map<string, Assignment>)

  datatype Reply = Reply(platform: nat, delay: int)

  datatype Error = BadPlatformCount | BlankTrain | BadWait

  predicate Occupies(a: Assignment, t: int) {
    a.start <= t <= a.end
  }

  /** The inclusive block `[lo, hi]` shares a slot with `a`. */
  predicate Overlaps(a: Assignment, lo: int, hi: int) {
    a.start <= hi && lo <= a.end
  }

  /** No assignment of the timeline touches the `wait` slots starting at `s`. */
  predicate Free(tl: Timeline, s: int, wait: int) {
    forall i :: 0 <= i < |tl| ==> !Overlaps(tl[i], s, s + wait - 1)
  }

  /** Chronological order of non-empty, pairwise disjoint intervals. */
  predicate Ordered(tl: Timeline) {
    (forall i :: 0 <= i < |tl| ==> tl[i].start <= tl[i].end) &&
    (forall i, j :: 0 <= i < j < |tl| ==> tl[i].end < tl[j].start)
  }

  ghost predicate TimelinesOk(m: Manager) {
    forall p :: 0 <= p < |m.schedules| ==> Ordered(m.schedules[p])
  }

  /** Every scheduled interval sits on its own platform and is the one indexed for its train. */
  ghost predicate IndexSound(m: Manager) {
    forall p, i :: 0 <= p < |m.schedules| && 0 <= i < |m.schedules[p]| ==>
      m.schedules[p][i].platform == p && m.schedules[p][i].train != "" &&
      m.schedules[p][i].train in m.index && m.index[m.schedules[p][i].train] == m.schedules[p][i]
  }

  /** Every indexed train is scheduled on the platform its assignment names. */
  ghost predicate IndexComplete(m: Manager) {
    forall id :: id in m.index ==>
      m.index[id].train == id && m.index[id].platform < |m.schedules| &&
      m.index[id] in m.schedules[m.index[id].platform]
  }

  ghost predicate Valid(m: Manager) {
    |m.schedules| > 0 && TimelinesOk(m) && IndexSound(m) && IndexComplete(m)
  }

  /** The constructor: `platformCount` empty timelines, or a rejection when the count is not positive. */
  function Create(count: int): (r: Result<Manager, Error>)
    ensures r.Err? <==> count <= 0
    ensures r.Ok? ==> |r.value.schedules| == count && Valid(r.value) && r.value.index == map[]
    ensures r.Ok? ==> forall p :: 0 <= p < count ==> r.value.schedules[p] == []
  {
    if count <= 0 then Err(BadPlatformCount)
    else Ok(Manager(seq(count, _ => []), map[]))
  }

  // ---------------------------------------------------------------------------
  // The gap scan of one platform
  // ---------------------------------------------------------------------------

  /** The inner loop of `assignPlatform` over one timeline, starting from candidate `c`. */
  function Scan(tl: Timeline, c: int, wait: int): (r: int)
    ensures r >= c
  {
    if tl == [] then c
    else
      var iv := tl[0];
      if iv.end < c then Scan(tl[1..], c, wait)
      else if iv.start <= c then Scan(tl[1..], iv.end + 1, wait)
      else if iv.start - c >= wait then c
      else Scan(tl[1..], iv.end + 1, wait)
  }

  lemma {:induction false} ScanFree(tl: Timeline, c: int, wait: int)
    requires Ordered(tl) && wait >= 1
    ensures Free(tl, Scan(tl, c, wait), wait)
  {
    if tl != [] {
      var iv := tl[0];
      var rest := tl[1..];
      assert Ordered(rest) by {
        forall i, j | 0 <= i < j < |rest| ensures rest[i].end < rest[j].start {
          assert rest[i] == tl[i + 1] && rest[j] == tl[j + 1];
        }
      }
      var r := Scan(tl, c, wait);
      if iv.end < c || iv.start <= c || iv.start - c < wait {
        var c' := if iv.end < c then c else iv.end + 1;
        ScanFree(rest, c', wait);
        assert r == Scan(rest, c', wait);
        forall i | 0 <= i < |tl| ensures !Overlaps(tl[i], r, r + wait - 1) {
          if i > 0 { assert tl[i] == rest[i - 1]; }
        }
      } else {
        assert r == c && c + wait - 1 < iv.start;
        forall i | 0 <= i < |tl| ensures !Overlaps(tl[i], r, r + wait - 1) {
          if i > 0 { assert tl[0].end < tl[i].start; }
        }
      }
    }
  }

  /** No start between `c` and the scan's answer fits: the scan finds the earliest gap. */
  lemma {:induction false} ScanEarliest(tl: Timeline, c: int, wait: int, s: int)
    requires Ordered(tl) && wait >= 1
    requires c <= s < Scan(tl, c, wait)
    ensures !Free(tl, s, wait)
  {
    var iv := tl[0];
    var rest := tl[1..];
    assert Ordered(rest) by {
      forall i, j | 0 <= i < j < |rest| ensures rest[i].end < rest[j].start {
        assert rest[i] == tl[i + 1] && rest[j] == tl[j + 1];
      }
    }
    if iv.end < c {
      ScanEarliest(rest, c, wait, s);
      var k :| 0 <= k < |rest| && Overlaps(rest[k], s, s + wait - 1);
      assert tl[k + 1] == rest[k];
    } else if s <= iv.end {
      assert Overlaps(tl[0], s, s + wait - 1);
    } else {
      ScanEarliest(rest, iv.end + 1, wait, s);
      var k :| 0 <= k < |rest| && Overlaps(rest[k], s, s + wait - 1);
      assert tl[k + 1] == rest[k];
    }
  }

  // ---------------------------------------------------------------------------
  // Choosing the platform
  // ---------------------------------------------------------------------------

  /** The index the `delay < bestDelay` scan keeps: the first smallest entry. */
  function FirstMin(d: seq<int>): (i: nat)
    requires |d| > 0
    ensures i < |d|
    ensures forall j :: 0 <= j < |d| ==> d[i] <= d[j]
    ensures forall j :: 0 <= j < i ==> d[i] < d[j]
  {
    if |d| == 1 then 0
    else
      var k := FirstMin(d[..|d| - 1]);
      if d[|d| - 1] < d[k] then |d| - 1 else k
  }

  function Max0(x: int): int {
    if x < 0 then 0 else x
  }

  function Starts(m: Manager, arrival: int, wait: int): seq<int> {
    seq(|m.schedules|, q requires 0 <= q < |m.schedules| => Scan(m.schedules[q], arrival, wait))
  }

  function Delays(starts: seq<int>, arrival: int): seq<int> {
    seq(|starts|, q requires 0 <= q < |starts| => Max0(starts[q] - arrival))
  }

  /** Put an assignment into a timeline at the position of its start time. */
  function Insert(tl: Timeline, a: Assignment): (r: Timeline)
    ensures |r| == |tl| + 1
  {
    if tl == [] then [a]
    else if a.start < tl[0].start then [a] + tl
    else [tl[0]] + Insert(tl[1..], a)
  }

  /** Scheduling a train not seen before: the interval the scan picked on the winning platform. */
  function Place(m: Manager, train: string, arrival: int, wait: int): (Manager, Reply)
    requires |m.schedules| > 0
  {
    var starts := Starts(m, arrival, wait);
    var delays := Delays(starts, arrival);
    var p := FirstMin(delays);
    var a := Assignment(train, p, starts[p], starts[p] + wait - 1, delays[p]);
    (Manager(m.schedules[p := Insert(m.schedules[p], a)], m.index[train := a]), Reply(p, delays[p]))
  }

  /** `assignPlatform`: validate, answer a known train from the index, otherwise place it. */
  function AssignPlatform(m: Manager, train: string, arrival: int, wait: int): (r: Result<(Manager, Reply), Error>)
    requires |m.schedules| > 0
    ensures train == "" ==> r == Err(BlankTrain)
    ensures train != "" && wait <= 0 ==> r == Err(BadWait)
    ensures train != "" && wait > 0 ==> r.Ok?
    ensures r.Ok? && train in m.index ==>
              r.value == (m, Reply(m.index[train].platform, m.index[train].delay))
    ensures r.Ok? && train !in m.index ==>
              r.value.1.platform < |m.schedules| && train in r.value.0.index &&
              r.value.0.index[train].platform == r.value.1.platform &&
              r.value.0.index[train].end - r.value.0.index[train].start == wait - 1
  {
    if train == "" then Err(BlankTrain)
    else if wait <= 0 then Err(BadWait)
    else if train in m.index then Ok((m, Reply(m.index[train].platform, m.index[train].delay)))
    else Ok(Place(m, train, arrival, wait))
  }

  // ---------------------------------------------------------------------------
  // Queries
  // ---------------------------------------------------------------------------

  /** `TreeMap.floorEntry`: the assignment with the greatest start at or before `t`. */
  function Floor(tl: Timeline, t: int): (r: Option<Assignment>)
    ensures r.Some? ==> r.value in tl && r.value.start <= t
    ensures r.None? ==> forall i :: 0 <= i < |tl| ==> tl[i].start > t
    ensures r.Some? && Ordered(tl) ==> forall i :: 0 <= i < |tl| && tl[i].start <= t ==> tl[i].start <= r.value.start
  {
    if tl == [] then None
    else if tl[|tl| - 1].start <= t then Some(tl[|tl| - 1])
    else
      assert Ordered(tl) ==> Ordered(tl[..|tl| - 1]);
      Floor(tl[..|tl| - 1], t)
  }

  /** `getTrainAtPlatform`: the occupying train, or `""`. */
  function TrainAt(m: Manager, p: int, t: int): (r: string)
    ensures !(0 <= p < |m.schedules|) ==> r == ""
  {
    if !(0 <= p < |m.schedules|) then ""
    else
      match Floor(m.schedules[p], t)
      case None => ""
      case Some(iv) => if t >= iv.start && t <= iv.end then iv.train else ""
  }

  /** `getPlatformOfTrain`: the train's platform while it occupies `t`, otherwise -1. */
  function PlatformOf(m: Manager, train: string, t: int): (r: int)
    ensures r == -1 || (train in m.index && r == m.index[train].platform && Occupies(m.index[train], t))
  {
    if train !in m.index then -1
    else
      var iv := m.index[train];
      if t >= iv.start && t <= iv.end then iv.platform else -1
  }

  // ---------------------------------------------------------------------------
  // Properties
  // ---------------------------------------------------------------------------

  /** The chosen interval is free on its platform, no platform offers a smaller delay, and a lower platform only a larger one. */
  lemma PlaceChoosesEarliest(m: Manager, train: string, arrival: int, wait: int)
    requires |m.schedules| > 0 && TimelinesOk(m) && wait >= 1
    ensures var (m', rep) := Place(m, train, arrival, wait);
            var p := rep.platform;
            p < |m.schedules| && rep.delay >= 0 &&
            m'.index[train] == Assignment(train, p, arrival + rep.delay, arrival + rep.delay + wait - 1, rep.delay) &&
            Free(m.schedules[p], arrival + rep.delay, wait) &&
            (forall q, s :: 0 <= q < |m.schedules| && s >= arrival && Free(m.schedules[q], s, wait) ==> s - arrival >= rep.delay) &&
            (forall q, s :: 0 <= q < p && s >= arrival && Free(m.schedules[q], s, wait) ==> s - arrival > rep.delay)
  {
    var starts := Starts(m, arrival, wait);
    var delays := Delays(starts, arrival);
    var p := FirstMin(delays);
    assert delays[p] == starts[p] - arrival;
    ScanFree(m.schedules[p], arrival, wait);
    forall q, s | 0 <= q < |m.schedules| && s >= arrival && Free(m.schedules[q], s, wait)
      ensures s - arrival >= delays[q]
    {
      if s < starts[q] {
        ScanEarliest(m.schedules[q], arrival, wait, s);
      }
    }
  }

  lemma {:induction false} InsertContents(tl: Timeline, a: Assignment)
    ensures forall x :: x in Insert(tl, a) <==> x in tl || x == a
  {
    if tl != [] && a.start >= tl[0].start {
      InsertContents(tl[1..], a);
      assert tl == [tl[0]] + tl[1..];
    }
  }

  lemma RestOrdered(tl: Timeline)
    requires Ordered(tl) && tl != []
    ensures Ordered(tl[1..])
  {
    var rest := tl[1..];
    forall i, j | 0 <= i < j < |rest| ensures rest[i].end < rest[j].start {
      assert rest[i] == tl[i + 1] && rest[j] == tl[j + 1];
    }
  }

  /** Every interval after the head starts after the head ends. */
  lemma HeadFirst(tl: Timeline, x: Assignment)
    requires Ordered(tl) && tl != [] && x in tl[1..]
    ensures tl[0].end < x.start
  {
    var k :| 0 <= k < |tl[1..]| && tl[1..][k] == x;
    assert tl[k + 1] == x;
  }

  lemma ConsOrdered(x: Assignment, tl: Timeline)
    requires Ordered(tl) && x.start <= x.end
    requires forall y :: y in tl ==> x.end < y.start
    ensures Ordered([x] + tl)
  {
    var r := [x] + tl;
    forall i, j | 0 <= i < j < |r| ensures r[i].end < r[j].start {
      assert r[j] == tl[j - 1];
      if i > 0 { assert r[i] == tl[i - 1]; }
    }
  }

  lemma {:induction false} InsertOrdered(tl: Timeline, a: Assignment)
    requires Ordered(tl) && a.start <= a.end
    requires forall i :: 0 <= i < |tl| ==> !Overlaps(tl[i], a.start, a.end)
    ensures Ordered(Insert(tl, a))
  {
    if tl != [] {
      var rest := tl[1..];
      assert !Overlaps(tl[0], a.start, a.end);
      if a.start < tl[0].start {
        forall y | y in tl ensures a.end < y.start {
          if y != tl[0] { HeadFirst(tl, y); }
        }
        ConsOrdered(a, tl);
      } else {
        RestOrdered(tl);
        forall i | 0 <= i < |rest| ensures !Overlaps(rest[i], a.start, a.end) {
          assert rest[i] == tl[i + 1];
        }
        InsertOrdered(rest, a);
        InsertContents(rest, a);
        forall y | y in Insert(rest, a) ensures tl[0].end < y.start {
          if y != a { HeadFirst(tl, y); }
        }
        ConsOrdered(tl[0], Insert(rest, a));
      }
    }
  }

  lemma PlaceKeepsTimelines(m: Manager, train: string, arrival: int, wait: int)
    requires |m.schedules| > 0 && TimelinesOk(m) && wait >= 1
    ensures TimelinesOk(Place(m, train, arrival, wait).0)
  {
    PlaceChoosesEarliest(m, train, arrival, wait);
    var (m', rep) := Place(m, train, arrival, wait);
    var a := m'.index[train];
    InsertOrdered(m.schedules[rep.platform], a);
  }

  lemma PlaceKeepsIndex(m: Manager, train: string, arrival: int, wait: int)
    requires |m.schedules| > 0 && IndexSound(m) && IndexComplete(m) && train != "" && train !in m.index
    ensures IndexSound(Place(m, train, arrival, wait).0) && IndexComplete(Place(m, train, arrival, wait).0)
  {
    var (m', rep) := Place(m, train, arrival, wait);
    var p := rep.platform;
    var a := m'.index[train];
    InsertContents(m.schedules[p], a);
    forall q, i | 0 <= q < |m'.schedules| && 0 <= i < |m'.schedules[q]|
      ensures m'.schedules[q][i].platform == q && m'.schedules[q][i].train != "" &&
              m'.schedules[q][i].train in m'.index && m'.index[m'.schedules[q][i].train] == m'.schedules[q][i]
    {
      var x := m'.schedules[q][i];
      if x != a {
        if q == p {
          assert x in m.schedules[p];
          var k :| 0 <= k < |m.schedules[p]| && m.schedules[p][k] == x;
        }
      }
    }
  }

  lemma AssignPreservesValid(m: Manager, train: string, arrival: int, wait: int)
    requires Valid(m)
    ensures var r := AssignPlatform(m, train, arrival, wait);
            r.Ok? ==> Valid(r.value.0)
  {
    if train != "" && wait > 0 && train !in m.index {
      PlaceKeepsTimelines(m, train, arrival, wait);
      PlaceKeepsIndex(m, train, arrival, wait);
    }
  }

  /** Asking again for a scheduled train returns the same answer and changes nothing. */
  lemma AssignIdempotent(m: Manager, train: string, arrival: int, wait: int, arrival2: int, wait2: int)
    requires |m.schedules| > 0 && train != "" && wait > 0 && wait2 > 0
    ensures var r := AssignPlatform(m, train, arrival, wait);
            var r2 := AssignPlatform(r.value.0, train, arrival2, wait2);
            r2 == Ok((r.value.0, r.value.1))
  {
  }

  /** In a timeline of disjoint intervals the floor entry of an occupied slot is its occupant. */
  lemma {:induction false} FloorFindsOccupant(tl: Timeline, t: int, i: int)
    requires Ordered(tl) && 0 <= i < |tl| && Occupies(tl[i], t)
    ensures Floor(tl, t) == Some(tl[i])
  {
    if i < |tl| - 1 {
      var init := tl[..|tl| - 1];
      assert tl[i].end < tl[|tl| - 1].start;
      assert Ordered(init) by {
        forall a, b | 0 <= a < b < |init| ensures init[a].end < init[b].start {
          assert init[a] == tl[a] && init[b] == tl[b];
        }
      }
      assert init[i] == tl[i];
      FloorFindsOccupant(init, t, i);
    }
  }

  /** `getTrainAtPlatform` names exactly the train whose interval covers the slot. */
  lemma TrainAtOccupant(m: Manager, p: int, t: int)
    requires TimelinesOk(m) && IndexSound(m) && 0 <= p < |m.schedules|
    ensures TrainAt(m, p, t) != "" <==> exists i :: 0 <= i < |m.schedules[p]| && Occupies(m.schedules[p][i], t)
    ensures forall i :: 0 <= i < |m.schedules[p]| && Occupies(m.schedules[p][i], t) ==>
              TrainAt(m, p, t) == m.schedules[p][i].train
  {
    var tl := m.schedules[p];
    forall i | 0 <= i < |tl| && Occupies(tl[i], t) ensures TrainAt(m, p, t) == tl[i].train {
      FloorFindsOccupant(tl, t, i);
    }
    if TrainAt(m, p, t) != "" {
      var iv := Floor(tl, t).value;
      var k :| 0 <= k < |tl| && tl[k] == iv;
      assert Occupies(tl[k], t);
    }
  }

  /** `getPlatformOfTrain` answers the platform exactly when the train's interval there covers the slot. */
  lemma PlatformOfOccupant(m: Manager, train: string, t: int)
    requires IndexSound(m) && IndexComplete(m)
    ensures PlatformOf(m, train, t) >= 0 ==>
              exists i :: 0 <= i < |m.schedules[PlatformOf(m, train, t)]| &&
                m.schedules[PlatformOf(m, train, t)][i].train == train &&
                Occupies(m.schedules[PlatformOf(m, train, t)][i], t)
    ensures forall p, i :: (0 <= p < |m.schedules| && 0 <= i < |m.schedules[p]| &&
              m.schedules[p][i].train == train && Occupies(m.schedules[p][i], t)) ==>
              PlatformOf(m, train, t) == p
  {
    if PlatformOf(m, train, t) >= 0 {
      var a := m.index[train];
      var k :| 0 <= k < |m.schedules[a.platform]| && m.schedules[a.platform][k] == a;
      assert m.schedules[PlatformOf(m, train, t)][k].train == train;
    }
  }

  /** A scheduled interval is found by both queries at its start slot. */
  lemma QueriesFindScheduled(m: Manager, p: nat, k: nat)
    requires TimelinesOk(m) && IndexSound(m) && p < |m.schedules| && k < |m.schedules[p]|
    ensures PlatformOf(m, m.schedules[p][k].train, m.schedules[p][k].start) == p
    ensures TrainAt(m, p, m.schedules[p][k].start) == m.schedules[p][k].train
  {
    TrainAtOccupant(m, p, m.schedules[p][k].start);
  }

  lemma PlaceThenQuery(m: Manager, train: string, arrival: int, wait: int)
    requires |m.schedules| > 0 && TimelinesOk(m) && IndexSound(m) && IndexComplete(m)
    requires train != "" && wait > 0 && train !in m.index
    ensures var (m', rep) := Place(m, train, arrival, wait);
            PlatformOf(m', train, arrival + rep.delay) == rep.platform &&
            TrainAt(m', rep.platform, arrival + rep.delay) == train
  {
    PlaceChoosesEarliest(m, train, arrival, wait);
    PlaceKeepsTimelines(m, train, arrival, wait);
    PlaceKeepsIndex(m, train, arrival, wait);
    var r := Place(m, train, arrival, wait);
    var m', rep := r.0, r.1;
    var a := m'.index[train];
    assert a in m'.schedules[rep.platform];
    var k :| 0 <= k < |m'.schedules[rep.platform]| && m'.schedules[rep.platform][k] == a;
    QueriesFindScheduled(m', rep.platform, k);
    assert a.start == arrival + rep.delay;
  }

  /** Right after placing a new train both queries find it at its start slot. */
  lemma AssignThenQuery(m: Manager, train: string, arrival: int, wait: int)
    requires Valid(m) && train != "" && wait > 0 && train !in m.index
    ensures var r := AssignPlatform(m, train, arrival, wait);
            var start := arrival + r.value.1.delay;
            PlatformOf(r.value.0, train, start) == r.value.1.platform &&
            TrainAt(r.value.0, r.value.1.platform, start) == train
  {
    assert AssignPlatform(m, train, arrival, wait) == Ok(Place(m, train, arrival, wait));
    PlaceThenQuery(m, train, arrival, wait);
  }
}
