/**
 * The recurring meeting room scheduler (q45-recurrent-meeting-scheduler,
 * Solution.java).
 *
 * A booking recurs: it has exactly `MaxOccurrences` occurrences, the i-th
 * covering the closed interval [start + i*repeat, start + i*repeat + duration - 1].
 * Two bookings of one room may never have overlapping occurrences. Rooms and
 * employees keep the ids of their bookings in insertion order, and a listing
 * merges the occurrences of several bookings through a priority queue.
 */
module RecurringScheduler {
  import Strings
  import Ordering

  /** `MAX_OCCURRENCES`: every booking has exactly this many occurrences. */
  const MaxOccurrences: int := 20

  datatype Booking = Booking(employee: int, room: int, start: int, duration: int, repeat: int)

  datatype Scheduler = Scheduler(
    roomsCount: int,
    employeesCount: int,
    byId: map<string, Booking>,
    rooms: seq<seq<string>>,
    employees: seq<seq<string>>)

  /** How many times `for (int i = 0; i < n; i++)` runs: none for a negative `n`. */
  function LoopCount(n: int): nat {
    if n < 0 then 0 else n
  }

  /**
   * `new MeetingRoomScheduler(roomsCount, employeesCount)`: the counts are kept
   * as given and an empty id list is added per room and per employee, so a
   * negative count yields no list at all.
   */
  function Create(roomsCount: int, employeesCount: int): (s: Scheduler)
    ensures s.roomsCount == roomsCount && s.employeesCount == employeesCount && s.byId == map[]
    ensures |s.rooms| == (if roomsCount < 0 then 0 else roomsCount)
    ensures |s.employees| == (if employeesCount < 0 then 0 else employeesCount)
    ensures forall r :: 0 <= r < roomsCount ==> s.rooms[r] == []
    ensures forall e :: 0 <= e < employeesCount ==> s.employees[e] == []
  {
    Scheduler(roomsCount, employeesCount, map[],
              seq(LoopCount(roomsCount), _ => []), seq(LoopCount(employeesCount), _ => []))
  }

  // ---------------------------------------------------------------------------
  // Occurrences
  // ---------------------------------------------------------------------------

  /** `occStart(i)`, computed in `long`, which cannot overflow for `int` inputs and i < 20. */
  function OccStart(b: Booking, i: int): int {
    b.start + i * b.repeat
  }

  /** `occEnd(i)`: the last time unit of the i-th occurrence. */
  function OccEnd(b: Booking, i: int): int {
    OccStart(b, i) + b.duration - 1
  }

  /** The checks `bookRoom` makes on the times of a new booking. */
  predicate WellTimed(b: Booking) {
    b.start >= 0 && b.duration > 0 && b.repeat > 0 && b.duration < b.repeat
  }

  lemma MulMonotone(d: int, r: int)
    requires d >= 1 && r > 0
    ensures d * r >= r
  {
  }

  /** The occurrences of a well-timed booking are non-empty, in order and pairwise apart. */
  lemma OccurrencesApart(b: Booking, i: int, j: int)
    requires WellTimed(b) && 0 <= i < j
    ensures OccStart(b, i) <= OccEnd(b, i) < OccStart(b, j)
  {
    MulMonotone(j - i, b.repeat);
    assert OccStart(b, j) - OccStart(b, i) == (j - i) * b.repeat;
  }

  /** `intervalsOverlap`: two closed intervals share a time. */
  predicate IntervalsOverlap(aStart: int, aEnd: int, bStart: int, bEnd: int) {
    aStart <= bEnd && bStart <= aEnd
  }

  /** Occurrence i of `a` and occurrence j of `b` share a time. */
  predicate OccOverlap(a: Booking, i: int, b: Booking, j: int) {
    IntervalsOverlap(OccStart(a, i), OccEnd(a, i), OccStart(b, j), OccEnd(b, j))
  }

  /** Occurrence i of `b` meets the query interval. */
  predicate OccHits(b: Booking, i: int, qs: int, qe: int) {
    IntervalsOverlap(OccStart(b, i), OccEnd(b, i), qs, qe)
  }

  /** The loop of `bookingOverlapsIntervalWithin20` from occurrence `i` on. */
  function HitsFrom(b: Booking, qs: int, qe: int, i: int): (r: bool)
    requires 0 <= i <= MaxOccurrences
    ensures r <==> exists k :: i <= k < MaxOccurrences && OccHits(b, k, qs, qe)
    decreases MaxOccurrences - i
  {
    if i == MaxOccurrences then false
    else if OccHits(b, i, qs, qe) then true
    else HitsFrom(b, qs, qe, i + 1)
  }

  /** `bookingOverlapsIntervalWithin20`: some occurrence meets the query interval. */
  function Hits(b: Booking, qs: int, qe: int): (r: bool)
    ensures r <==> exists k :: 0 <= k < MaxOccurrences && OccHits(b, k, qs, qe)
  {
    HitsFrom(b, qs, qe, 0)
  }

  /** The outer loop of `bookingsOverlapWithin20` from occurrence `i` of `a` on. */
  function OverlapFrom(a: Booking, b: Booking, i: int): (r: bool)
    requires 0 <= i <= MaxOccurrences
    ensures r <==> exists k :: i <= k < MaxOccurrences && Hits(b, OccStart(a, k), OccEnd(a, k))
    decreases MaxOccurrences - i
  {
    if i == MaxOccurrences then false
    else Hits(b, OccStart(a, i), OccEnd(a, i)) || OverlapFrom(a, b, i + 1)
  }

  /** Some occurrence of `a`, taken as a query, hits `b` exactly when some pair of occurrences overlaps. */
  lemma PairsIffHits(a: Booking, b: Booking)
    ensures (exists k :: 0 <= k < MaxOccurrences && Hits(b, OccStart(a, k), OccEnd(a, k))) <==>
            exists k, l :: 0 <= k < MaxOccurrences && 0 <= l < MaxOccurrences && OccOverlap(a, k, b, l)
  {
    if k :| 0 <= k < MaxOccurrences && Hits(b, OccStart(a, k), OccEnd(a, k)) {
      var l :| 0 <= l < MaxOccurrences && OccHits(b, l, OccStart(a, k), OccEnd(a, k));
      assert OccOverlap(a, k, b, l);
    }
    if k, l :| 0 <= k < MaxOccurrences && 0 <= l < MaxOccurrences && OccOverlap(a, k, b, l) {
      assert OccHits(b, l, OccStart(a, k), OccEnd(a, k));
      assert Hits(b, OccStart(a, k), OccEnd(a, k));
    }
  }

  /** `bookingsOverlapWithin20`: some pair of the 20 × 20 occurrences shares a time. */
  function Overlap20(a: Booking, b: Booking): (r: bool)
    ensures r <==> exists k, l :: 0 <= k < MaxOccurrences && 0 <= l < MaxOccurrences && OccOverlap(a, k, b, l)
  {
    PairsIffHits(a, b);
    OverlapFrom(a, b, 0)
  }

  /** Whether two bookings clash does not depend on which one is new. */
  lemma OverlapSymmetric(a: Booking, b: Booking)
    ensures Overlap20(a, b) == Overlap20(b, a)
  {
    if Overlap20(a, b) {
      var k, l :| 0 <= k < MaxOccurrences && 0 <= l < MaxOccurrences && OccOverlap(a, k, b, l);
      assert OccOverlap(b, l, a, k);
    }
    if Overlap20(b, a) {
      var k, l :| 0 <= k < MaxOccurrences && 0 <= l < MaxOccurrences && OccOverlap(b, k, a, l);
      assert OccOverlap(a, l, b, k);
    }
  }

  // ---------------------------------------------------------------------------
  // Invariant
  // ---------------------------------------------------------------------------

  /** Every id in a list is a booking. */
  predicate Indexed(ids: seq<string>, byId: map<string, Booking>) {
    forall k :: 0 <= k < |ids| ==> ids[k] in byId
  }

  /** A room's list: distinct known bookings, all of that room. */
  predicate RoomList(ids: seq<string>, byId: map<string, Booking>, r: int) {
    Indexed(ids, byId) && Ordering.Distinct(ids) && forall k :: 0 <= k < |ids| ==> byId[ids[k]].room == r
  }

  /** An employee's list: distinct known bookings, all of that employee. */
  predicate EmployeeList(ids: seq<string>, byId: map<string, Booking>, e: int) {
    Indexed(ids, byId) && Ordering.Distinct(ids) && forall k :: 0 <= k < |ids| ==> byId[ids[k]].employee == e
  }

  /** One list per room and per employee, each naming its own bookings once. */
  predicate Shaped(s: Scheduler) {
    && |s.rooms| == LoopCount(s.roomsCount) && |s.employees| == LoopCount(s.employeesCount)
    && (forall r :: 0 <= r < |s.rooms| ==> RoomList(s.rooms[r], s.byId, r))
    && (forall e :: 0 <= e < |s.employees| ==> EmployeeList(s.employees[e], s.byId, e))
  }

  /** Every booking passed the time checks and names a room and an employee that exist. */
  predicate InRange(s: Scheduler) {
    forall id :: id in s.byId ==>
      && WellTimed(s.byId[id])
      && 0 <= s.byId[id].room < |s.rooms| && 0 <= s.byId[id].employee < |s.employees|
  }

  /** Every booking is in the lists of its own room and its own employee. */
  predicate Consistent(s: Scheduler)
    requires Shaped(s) && InRange(s)
  {
    forall id :: id in s.byId ==> id in s.rooms[s.byId[id].room] && id in s.employees[s.byId[id].employee]
  }

  /** No two bookings of one room have overlapping occurrences. */
  predicate RoomApart(ids: seq<string>, byId: map<string, Booking>)
    requires Indexed(ids, byId)
  {
    forall i, j :: 0 <= i < |ids| && 0 <= j < |ids| && i != j ==> !Overlap20(byId[ids[i]], byId[ids[j]])
  }

  predicate Apart(s: Scheduler)
    requires Shaped(s)
  {
    forall r :: 0 <= r < |s.rooms| ==> RoomApart(s.rooms[r], s.byId)
  }

  ghost predicate Valid(s: Scheduler) {
    Shaped(s) && InRange(s) && Consistent(s) && Apart(s)
  }

  lemma CreateValid(roomsCount: int, employeesCount: int)
    ensures Valid(Create(roomsCount, employeesCount))
  {
  }

  // ---------------------------------------------------------------------------
  // bookRoom
  // ---------------------------------------------------------------------------

  /** The argument checks of `bookRoom` before it looks at the room. */
  predicate Acceptable(s: Scheduler, id: string, b: Booking) {
    id != "" && id !in s.byId && WellTimed(b)
  }

  /** The room loop of `bookRoom`: some listed booking clashes with `nb`; unknown ids are skipped. */
  function ClashIn(ids: seq<string>, byId: map<string, Booking>, nb: Booking): (r: bool)
    ensures r <==> exists k :: 0 <= k < |ids| && ids[k] in byId && Overlap20(nb, byId[ids[k]])
  {
    if ids == [] then false
    else if ids[0] in byId && Overlap20(nb, byId[ids[0]]) then true
    else
      var r := ClashIn(ids[1..], byId, nb);
      assert forall k :: 1 <= k < |ids| ==> ids[k] == ids[1..][k - 1];
      r
  }

  /**
   * `bookRoom`: false for an empty or known id, a negative start, a
   * non-positive duration or repeat, a duration not below the repeat, or a
   * clash with a booking of the room; otherwise the booking is recorded and
   * appended to its room's and employee's lists.
   */
  function Book(s: Scheduler, id: string, employee: int, room: int, start: int, duration: int, repeat: int): (r: (Scheduler, bool))
    requires Shaped(s) && 0 <= room < |s.rooms| && 0 <= employee < |s.employees|
    ensures var nb := Booking(employee, room, start, duration, repeat);
            r.1 <==> Acceptable(s, id, nb) && forall x :: x in s.rooms[room] ==> !Overlap20(nb, s.byId[x])
    ensures !r.1 ==> r.0 == s
    ensures r.1 ==> r.0.byId == s.byId[id := Booking(employee, room, start, duration, repeat)]
    ensures r.1 ==> r.0.rooms == s.rooms[room := s.rooms[room] + [id]]
    ensures r.1 ==> r.0.employees == s.employees[employee := s.employees[employee] + [id]]
  {
    if id == "" || id in s.byId then (s, false)
    else if start < 0 || duration <= 0 || repeat <= 0 || duration >= repeat then (s, false)
    else
      var nb := Booking(employee, room, start, duration, repeat);
      if ClashIn(s.rooms[room], s.byId, nb) then (s, false)
      else
        (s.(byId := s.byId[id := nb],
            rooms := s.rooms[room := s.rooms[room] + [id]],
            employees := s.employees[employee := s.employees[employee] + [id]]), true)
  }

  /** Appending a fresh booking that clashes with none of a room's keeps the room apart. */
  lemma ApartAppend(ids: seq<string>, byId: map<string, Booking>, id: string, nb: Booking)
    requires Indexed(ids, byId) && RoomApart(ids, byId) && id !in byId
    requires forall x :: x in ids ==> !Overlap20(nb, byId[x])
    ensures Indexed(ids + [id], byId[id := nb]) && RoomApart(ids + [id], byId[id := nb])
  {
    var ids', byId' := ids + [id], byId[id := nb];
    forall i, j | 0 <= i < |ids'| && 0 <= j < |ids'| && i != j
      ensures !Overlap20(byId'[ids'[i]], byId'[ids'[j]])
    {
      if i == |ids| {
        assert ids[j] in ids;
      } else if j == |ids| {
        assert ids[i] in ids;
        OverlapSymmetric(nb, byId[ids[i]]);
      } else {
        assert ids'[i] == ids[i] && ids'[j] == ids[j];
      }
    }
  }

  /** Lists that keep their bookings stay indexed and apart when bookings are added elsewhere. */
  lemma ApartFrame(ids: seq<string>, byId: map<string, Booking>, byId': map<string, Booking>)
    requires Indexed(ids, byId) && RoomApart(ids, byId)
    requires forall k :: 0 <= k < |ids| ==> ids[k] in byId' && byId'[ids[k]] == byId[ids[k]]
    ensures Indexed(ids, byId') && RoomApart(ids, byId')
  {
  }

  /** Appending a fresh id of the list's own room or employee keeps the list well-formed. */
  lemma ListAppend(ids: seq<string>, byId: map<string, Booking>, id: string, nb: Booking, r: int, e: int)
    requires id !in byId
    ensures RoomList(ids, byId, r) && nb.room == r ==> RoomList(ids + [id], byId[id := nb], r)
    ensures EmployeeList(ids, byId, e) && nb.employee == e ==> EmployeeList(ids + [id], byId[id := nb], e)
  {
    if Indexed(ids, byId) {
      assert id !in ids;
    }
  }

  /** Lists that keep their bookings stay well-formed when a booking is added elsewhere. */
  lemma ListFrame(ids: seq<string>, byId: map<string, Booking>, id: string, nb: Booking, r: int, e: int)
    requires id !in byId
    ensures RoomList(ids, byId, r) ==> RoomList(ids, byId[id := nb], r)
    ensures EmployeeList(ids, byId, e) ==> EmployeeList(ids, byId[id := nb], e)
  {
  }

  lemma BookShaped(s: Scheduler, id: string, nb: Booking)
    requires Valid(s) && id !in s.byId && WellTimed(nb)
    requires 0 <= nb.room < |s.rooms| && 0 <= nb.employee < |s.employees|
    ensures var s' := s.(byId := s.byId[id := nb],
                         rooms := s.rooms[nb.room := s.rooms[nb.room] + [id]],
                         employees := s.employees[nb.employee := s.employees[nb.employee] + [id]]);
            Shaped(s') && InRange(s') && Consistent(s')
  {
    var s' := s.(byId := s.byId[id := nb],
                 rooms := s.rooms[nb.room := s.rooms[nb.room] + [id]],
                 employees := s.employees[nb.employee := s.employees[nb.employee] + [id]]);
    forall r | 0 <= r < |s'.rooms| ensures RoomList(s'.rooms[r], s'.byId, r) {
      ListAppend(s.rooms[r], s.byId, id, nb, r, 0);
      ListFrame(s.rooms[r], s.byId, id, nb, r, 0);
    }
    forall e | 0 <= e < |s'.employees| ensures EmployeeList(s'.employees[e], s'.byId, e) {
      ListAppend(s.employees[e], s.byId, id, nb, 0, e);
      ListFrame(s.employees[e], s.byId, id, nb, 0, e);
    }
  }

  /** Booking keeps every list consistent with the registry and every room apart. */
  lemma BookValid(s: Scheduler, id: string, employee: int, room: int, start: int, duration: int, repeat: int)
    requires Valid(s) && 0 <= room < |s.rooms| && 0 <= employee < |s.employees|
    ensures Valid(Book(s, id, employee, room, start, duration, repeat).0)
  {
    if Book(s, id, employee, room, start, duration, repeat).1 {
      var nb := Booking(employee, room, start, duration, repeat);
      var s' := Book(s, id, employee, room, start, duration, repeat).0;
      BookShaped(s, id, nb);
      forall r | 0 <= r < |s'.rooms| ensures RoomApart(s'.rooms[r], s'.byId) {
        if r == room {
          ApartAppend(s.rooms[r], s.byId, id, nb);
        } else {
          ApartFrame(s.rooms[r], s.byId, s'.byId);
        }
      }
    }
  }

  // ---------------------------------------------------------------------------
  // getAvailableRooms
  // ---------------------------------------------------------------------------

  /** `isRoomFreeForInterval`: no listed booking has an occurrence meeting the query. */
  function FreeIn(ids: seq<string>, byId: map<string, Booking>, qs: int, qe: int): (r: bool)
    ensures r <==> forall k :: 0 <= k < |ids| && ids[k] in byId ==> !Hits(byId[ids[k]], qs, qe)
  {
    if ids == [] then true
    else if ids[0] in byId && Hits(byId[ids[0]], qs, qe) then false
    else
      var r := FreeIn(ids[1..], byId, qs, qe);
      assert forall k :: 1 <= k < |ids| ==> ids[k] == ids[1..][k - 1];
      r
  }

  function AvailableFrom(s: Scheduler, r: nat, qs: int, qe: int): (a: seq<int>)
    requires |s.rooms| == LoopCount(s.roomsCount)
    ensures forall x :: x in a <==> r <= x < |s.rooms| && FreeIn(s.rooms[x], s.byId, qs, qe)
    ensures forall i, j :: 0 <= i < j < |a| ==> a[i] < a[j]
    decreases s.roomsCount - r
  {
    if r >= s.roomsCount then []
    else
      var rest := AvailableFrom(s, r + 1, qs, qe);
      forall i | 0 <= i < |rest| ensures rest[i] > r {
        assert rest[i] in rest;
      }
      if FreeIn(s.rooms[r], s.byId, qs, qe) then [r] + rest else rest
  }

  /** `getAvailableRooms`: the rooms free for the query, ascending; none for a reversed query. */
  function AvailableRooms(s: Scheduler, qs: int, qe: int): (a: seq<int>)
    requires |s.rooms| == LoopCount(s.roomsCount)
    ensures qs > qe ==> a == []
    ensures forall i, j :: 0 <= i < j < |a| ==> a[i] < a[j]
  {
    if qs > qe then [] else AvailableFrom(s, 0, qs, qe)
  }

  /** A scheduler built with no room, or a negative room count, never lists an available room. */
  lemma NoRoomsNoneAvailable(roomsCount: int, employeesCount: int, qs: int, qe: int)
    requires roomsCount <= 0
    ensures AvailableRooms(Create(roomsCount, employeesCount), qs, qe) == []
  {
  }

  /** A room is available exactly when none of its bookings has an occurrence meeting the query. */
  lemma AvailableIffFree(s: Scheduler, qs: int, qe: int, room: int)
    requires Shaped(s) && qs <= qe && 0 <= room < |s.rooms|
    ensures room in AvailableRooms(s, qs, qe) <==>
              forall x, k :: x in s.rooms[room] && 0 <= k < MaxOccurrences ==> !OccHits(s.byId[x], k, qs, qe)
  {
    if room !in AvailableRooms(s, qs, qe) {
      var j :| 0 <= j < |s.rooms[room]| && Hits(s.byId[s.rooms[room][j]], qs, qe);
      var k :| 0 <= k < MaxOccurrences && OccHits(s.byId[s.rooms[room][j]], k, qs, qe);
      assert s.rooms[room][j] in s.rooms[room];
    }
  }

  /**
   * A new booking that passes the argument checks succeeds exactly when its
   * room is available for each of its 20 occurrences.
   */
  lemma BookIffEveryOccurrenceAvailable(s: Scheduler, id: string, employee: int, room: int, start: int, duration: int, repeat: int)
    requires Shaped(s) && 0 <= room < |s.rooms| && 0 <= employee < |s.employees|
    requires Acceptable(s, id, Booking(employee, room, start, duration, repeat))
    ensures var nb := Booking(employee, room, start, duration, repeat);
            Book(s, id, employee, room, start, duration, repeat).1 <==>
              forall k :: 0 <= k < MaxOccurrences ==> room in AvailableRooms(s, OccStart(nb, k), OccEnd(nb, k))
  {
    var nb := Booking(employee, room, start, duration, repeat);
    forall k | 0 <= k < MaxOccurrences ensures OccStart(nb, k) <= OccEnd(nb, k) {
    }
    forall x | x in s.rooms[room] ensures Overlap20(nb, s.byId[x]) <==> exists k :: 0 <= k < MaxOccurrences && Hits(s.byId[x], OccStart(nb, k), OccEnd(nb, k)) {
      PairsIffHits(nb, s.byId[x]);
    }
    if Book(s, id, employee, room, start, duration, repeat).1 {
      forall k | 0 <= k < MaxOccurrences ensures room in AvailableRooms(s, OccStart(nb, k), OccEnd(nb, k)) {
        forall j | 0 <= j < |s.rooms[room]| ensures !Hits(s.byId[s.rooms[room][j]], OccStart(nb, k), OccEnd(nb, k)) {
          assert s.rooms[room][j] in s.rooms[room];
        }
      }
    } else {
      var x :| x in s.rooms[room] && Overlap20(nb, s.byId[x]);
      var k :| 0 <= k < MaxOccurrences && Hits(s.byId[x], OccStart(nb, k), OccEnd(nb, k));
      var j :| 0 <= j < |s.rooms[room]| && s.rooms[room][j] == x;
      assert !FreeIn(s.rooms[room], s.byId, OccStart(nb, k), OccEnd(nb, k));
    }
  }

  // ---------------------------------------------------------------------------
  // cancelBooking
  // ---------------------------------------------------------------------------

  /** `List.remove(Object)`: drops the first copy of `x`, if any. */
  function RemoveFirst(l: seq<string>, x: string): (r: seq<string>)
    ensures x !in l ==> r == l
    ensures x in l ==> |r| == |l| - 1
    ensures forall y :: y in r ==> y in l
  {
    if l == [] then []
    else if l[0] == x then l[1..]
    else [l[0]] + RemoveFirst(l[1..], x)
  }

  /** On a list without repeats, removing `x` keeps every other id, in order, and nothing else. */
  lemma {:induction false} RemoveFirstDistinct(l: seq<string>, x: string)
    requires Ordering.Distinct(l)
    ensures Ordering.Distinct(RemoveFirst(l, x))
    ensures forall y :: y in RemoveFirst(l, x) <==> y in l && y != x
  {
    if l != [] {
      assert forall i, j :: 0 <= i < j < |l[1..]| ==> l[1..][i] == l[i + 1] && l[1..][j] == l[j + 1];
      assert l[0] !in l[1..];
      if l[0] != x {
        RemoveFirstDistinct(l[1..], x);
        Ordering.FreshDistinctCons({}, l[0], RemoveFirst(l[1..], x));
      }
    }
  }

  /** `cancelBooking`: false for an unknown id; otherwise it leaves the registry and its two lists. */
  function Cancel(s: Scheduler, id: string): (r: (Scheduler, bool))
    requires InRange(s)
    ensures r.1 <==> id in s.byId
    ensures !r.1 ==> r.0 == s
    ensures r.0.byId == s.byId - {id}
    ensures r.1 ==> r.0.rooms == s.rooms[s.byId[id].room := RemoveFirst(s.rooms[s.byId[id].room], id)]
    ensures r.1 ==> r.0.employees == s.employees[s.byId[id].employee := RemoveFirst(s.employees[s.byId[id].employee], id)]
  {
    if id !in s.byId then (s, false)
    else
      var b := s.byId[id];
      (s.(byId := s.byId - {id},
          rooms := s.rooms[b.room := RemoveFirst(s.rooms[b.room], id)],
          employees := s.employees[b.employee := RemoveFirst(s.employees[b.employee], id)]), true)
  }

  /** Lists that lose some ids stay indexed and apart. */
  lemma ApartShrink(ids: seq<string>, byId: map<string, Booking>, ids': seq<string>, byId': map<string, Booking>)
    requires Indexed(ids, byId) && RoomApart(ids, byId) && Ordering.Distinct(ids)
    requires Ordering.Distinct(ids') && forall x :: x in ids' ==> x in ids && x in byId' && byId'[x] == byId[x]
    ensures Indexed(ids', byId') && RoomApart(ids', byId')
  {
    forall i, j | 0 <= i < |ids'| && 0 <= j < |ids'| && i != j
      ensures !Overlap20(byId'[ids'[i]], byId'[ids'[j]])
    {
      assert ids'[i] in ids' && ids'[j] in ids';
      var a :| 0 <= a < |ids| && ids[a] == ids'[i];
      var b :| 0 <= b < |ids| && ids[b] == ids'[j];
    }
  }

  /** Removing an id from a well-formed list keeps it well-formed for the registry without it. */
  lemma ListRemove(ids: seq<string>, byId: map<string, Booking>, id: string, r: int, e: int)
    ensures RoomList(ids, byId, r) ==> RoomList(RemoveFirst(ids, id), byId - {id}, r)
    ensures EmployeeList(ids, byId, e) ==> EmployeeList(RemoveFirst(ids, id), byId - {id}, e)
  {
    if Ordering.Distinct(ids) {
      RemoveFirstDistinct(ids, id);
      var l := RemoveFirst(ids, id);
      forall k | 0 <= k < |l| ensures exists j :: 0 <= j < |ids| && ids[j] == l[k] {
        assert l[k] in l;
      }
    }
  }

  lemma CancelShaped(s: Scheduler, id: string)
    requires Valid(s) && id in s.byId
    ensures var s' := Cancel(s, id).0;
            && Shaped(s') && InRange(s') && Consistent(s')
            && (forall r :: 0 <= r < |s'.rooms| ==> forall x :: x in s'.rooms[r] ==> x in s.rooms[r] && x != id)
  {
    var b := s.byId[id];
    var s' := Cancel(s, id).0;
    forall r | 0 <= r < |s'.rooms|
      ensures RoomList(s'.rooms[r], s'.byId, r) && forall x :: x in s'.rooms[r] ==> x in s.rooms[r] && x != id
    {
      ListRemove(s.rooms[r], s.byId, id, r, 0);
      RemoveFirstDistinct(s.rooms[r], id);
      if r != b.room {
        assert id !in s.rooms[r];
      }
    }
    forall e | 0 <= e < |s'.employees| ensures EmployeeList(s'.employees[e], s'.byId, e) {
      ListRemove(s.employees[e], s.byId, id, 0, e);
      if e != b.employee {
        assert id !in s.employees[e];
      }
    }
    forall x | x in s'.byId ensures x in s'.rooms[s'.byId[x].room] && x in s'.employees[s'.byId[x].employee] {
      RemoveFirstDistinct(s.rooms[b.room], id);
      RemoveFirstDistinct(s.employees[b.employee], id);
    }
  }

  lemma CancelValid(s: Scheduler, id: string)
    requires Valid(s)
    ensures Valid(Cancel(s, id).0)
  {
    if id in s.byId {
      var s' := Cancel(s, id).0;
      CancelShaped(s, id);
      forall r | 0 <= r < |s'.rooms| ensures RoomApart(s'.rooms[r], s'.byId) {
        ApartShrink(s.rooms[r], s.byId, s'.rooms[r], s'.byId);
      }
    }
  }

  /** Cancelling a booking right after making it restores the scheduler. */
  lemma BookThenCancel(s: Scheduler, id: string, employee: int, room: int, start: int, duration: int, repeat: int)
    requires Shaped(s) && InRange(s) && 0 <= room < |s.rooms| && 0 <= employee < |s.employees|
    requires Book(s, id, employee, room, start, duration, repeat).1
    ensures Cancel(Book(s, id, employee, room, start, duration, repeat).0, id) == (s, true)
  {
    AddThenCancel(s, id, Booking(employee, room, start, duration, repeat));
  }

  lemma AddThenCancel(s: Scheduler, id: string, nb: Booking)
    requires Shaped(s) && InRange(s) && id !in s.byId && WellTimed(nb)
    requires 0 <= nb.room < |s.rooms| && 0 <= nb.employee < |s.employees|
    ensures var s' := s.(byId := s.byId[id := nb],
                         rooms := s.rooms[nb.room := s.rooms[nb.room] + [id]],
                         employees := s.employees[nb.employee := s.employees[nb.employee] + [id]]);
            InRange(s') && Cancel(s', id) == (s, true)
  {
    var s' := s.(byId := s.byId[id := nb],
                 rooms := s.rooms[nb.room := s.rooms[nb.room] + [id]],
                 employees := s.employees[nb.employee := s.employees[nb.employee] + [id]]);
    assert id !in s.rooms[nb.room] && id !in s.employees[nb.employee];
    RemoveLast(s.rooms[nb.room], id);
    RemoveLast(s.employees[nb.employee], id);
    var c := Cancel(s', id).0;
    assert c.byId == s.byId;
    assert c.rooms == s.rooms[nb.room := s.rooms[nb.room]] == s.rooms;
    assert c.employees == s.employees[nb.employee := s.employees[nb.employee]] == s.employees;
    assert c == s;
  }

  /** Removing an id appended to a list that did not hold it gives the list back. */
  lemma {:induction false} RemoveLast(l: seq<string>, x: string)
    requires x !in l
    ensures RemoveFirst(l + [x], x) == l
  {
    if l != [] {
      assert (l + [x])[1..] == l[1..] + [x];
      RemoveLast(l[1..], x);
    }
  }

  // ---------------------------------------------------------------------------
  // listFirstNOccurrences: the order of occurrences
  // ---------------------------------------------------------------------------

  /** `Occ`: one occurrence of a booking as the priority queue holds it. */
  datatype Occ = Occ(id: string, start: int, end: int, idx: int)

  function OccOf(id: string, b: Booking, i: int): Occ {
    Occ(id, OccStart(b, i), OccEnd(b, i), i)
  }

  /** The queue's comparator: `a` comes strictly before `b` by start, then booking id, then index. */
  predicate Before(a: Occ, b: Occ) {
    a.start < b.start || (a.start == b.start && (Strings.Less(a.id, b.id) || (a.id == b.id && a.idx < b.idx)))
  }

  lemma BeforeIrreflexive(a: Occ)
    ensures !Before(a, a)
  {
    Strings.LessIrreflexive(a.id);
  }

  lemma BeforeAsymmetric(a: Occ, b: Occ)
    requires Before(a, b)
    ensures !Before(b, a)
  {
    Strings.LessIrreflexive(a.id);
    if Strings.Less(a.id, b.id) {
      Strings.LessAsymmetric(a.id, b.id);
    }
  }

  lemma BeforeTransitive(a: Occ, b: Occ, c: Occ)
    requires Before(a, b) && Before(b, c)
    ensures Before(a, c)
  {
    if a.start == b.start == c.start && Strings.Less(a.id, b.id) && Strings.Less(b.id, c.id) {
      Strings.LessTransitive(a.id, b.id, c.id);
    }
  }

  /** Two occurrences the comparator cannot order agree on start, booking and index. */
  lemma BeforeTotal(a: Occ, b: Occ)
    ensures Before(a, b) || Before(b, a) || (a.start == b.start && a.id == b.id && a.idx == b.idx)
  {
    if a.id != b.id {
      Strings.LessTotal(a.id, b.id);
    }
  }

  /** Not coming before is transitive. */
  lemma NotBeforeChain(a: Occ, b: Occ, c: Occ)
    requires !Before(a, b) && !Before(b, c)
    ensures !Before(a, c)
  {
    BeforeTotal(a, b);
    BeforeTotal(b, c);
    if Before(b, a) && Before(c, b) {
      BeforeTransitive(c, b, a);
      BeforeAsymmetric(c, a);
    }
  }

  /** Along one well-timed booking the occurrences come in index order. */
  lemma ChainOrdered(id: string, b: Booking, i: int, j: int)
    requires b.repeat > 0 && i < j
    ensures Before(OccOf(id, b, i), OccOf(id, b, j))
  {
    MulMonotone(j - i, b.repeat);
    assert OccStart(b, j) - OccStart(b, i) == (j - i) * b.repeat;
  }

  /** `poll`: the position of the first occurrence that no other comes before. */
  function MinIndex(pq: seq<Occ>): (k: nat)
    requires pq != []
    ensures k < |pq| && forall j {:trigger Before(pq[j], pq[k])} :: 0 <= j < |pq| ==> !Before(pq[j], pq[k])
  {
    if |pq| == 1 then
      BeforeIrreflexive(pq[0]);
      0
    else
      var m := 1 + MinIndex(pq[1..]);
      assert forall j :: 1 <= j < |pq| ==> pq[j] == pq[1..][j - 1];
      if Before(pq[m], pq[0]) then
        BeforeAsymmetric(pq[m], pq[0]);
        m
      else
        MinFirst(pq, m);
        0
  }

  lemma MinFirst(pq: seq<Occ>, m: nat)
    requires m < |pq| && !Before(pq[m], pq[0])
    requires forall j :: 1 <= j < |pq| ==> !Before(pq[j], pq[m])
    ensures forall j :: 0 <= j < |pq| ==> !Before(pq[j], pq[0])
  {
    BeforeIrreflexive(pq[0]);
    forall j | 1 <= j < |pq| ensures !Before(pq[j], pq[0]) {
      NotBeforeChain(pq[j], pq[m], pq[0]);
    }
  }

  // ---------------------------------------------------------------------------
  // listFirstNOccurrences: the merge loop
  // ---------------------------------------------------------------------------

  /** `o` is occurrence `o.idx` (one of 0 .. 19) of a known booking. */
  predicate IsOccOf(o: Occ, byId: map<string, Booking>) {
    o.id in byId && 0 <= o.idx < MaxOccurrences && o == OccOf(o.id, byId[o.id], o.idx)
  }

  /** Queue entries are occurrences of known bookings, at most one per booking. */
  predicate QueueOk(pq: seq<Occ>, byId: map<string, Booking>) {
    && (forall k :: 0 <= k < |pq| ==> IsOccOf(pq[k], byId))
    && (forall i, j :: 0 <= i < j < |pq| ==> pq[i].id != pq[j].id)
  }

  /** The queue without its entry at `k`. */
  function Drop(pq: seq<Occ>, k: int): (r: seq<Occ>)
    requires 0 <= k < |pq|
    ensures |r| == |pq| - 1
  {
    pq[..k] + pq[k + 1..]
  }

  /** Entry `j` of the shortened queue is entry `j` or `j + 1` of the queue. */
  lemma DropIndex(pq: seq<Occ>, k: int)
    requires 0 <= k < |pq|
    ensures forall j :: 0 <= j < k ==> Drop(pq, k)[j] == pq[j]
    ensures forall j :: k <= j < |pq| - 1 ==> Drop(pq, k)[j] == pq[j + 1]
  {
  }

  lemma DropOk(pq: seq<Occ>, byId: map<string, Booking>, k: int)
    requires QueueOk(pq, byId) && 0 <= k < |pq|
    ensures QueueOk(Drop(pq, k), byId)
    ensures forall j :: 0 <= j < |Drop(pq, k)| ==> Drop(pq, k)[j].id != pq[k].id
  {
    var r := Drop(pq, k);
    DropIndex(pq, k);
    forall i, j | 0 <= i < j < |r| ensures r[i].id != r[j].id {
      var i' := if i < k then i else i + 1;
      var j' := if j < k then j else j + 1;
      assert r[i] == pq[i'] && r[j] == pq[j'];
    }
    forall j | 0 <= j < |r| ensures r[j].id != pq[k].id {
      var j' := if j < k then j else j + 1;
      assert r[j] == pq[j'];
    }
  }

  lemma PushOk(pq: seq<Occ>, byId: map<string, Booking>, o: Occ)
    requires QueueOk(pq, byId) && IsOccOf(o, byId)
    requires forall j :: 0 <= j < |pq| ==> pq[j].id != o.id
    ensures QueueOk(pq + [o], byId)
  {
  }

  /** Every booking repeats forward in time, as `bookRoom` ensures. */
  predicate Rising(byId: map<string, Booking>) {
    forall x :: x in byId ==> byId[x].repeat > 0
  }

  /** One turn of the loop: poll the least occurrence and push the booking's next one, if any. */
  function Step(pq: seq<Occ>, byId: map<string, Booking>): (r: (Occ, seq<Occ>))
    requires pq != []
  {
    var k := MinIndex(pq);
    var cur := pq[k];
    var rest := Drop(pq, k);
    if cur.id in byId && cur.idx + 1 < MaxOccurrences then
      (cur, rest + [OccOf(cur.id, byId[cur.id], cur.idx + 1)])
    else
      (cur, rest)
  }

  /** The `while` loop of `listFirstNOccurrences`: at most `n` occurrences, polled in turn. */
  function Merge(pq: seq<Occ>, byId: map<string, Booking>, n: nat): (r: seq<Occ>)
    ensures |r| <= n
    decreases n
  {
    if n == 0 || pq == [] then []
    else [Step(pq, byId).0] + Merge(Step(pq, byId).1, byId, n - 1)
  }

  /** How many occurrences the queue still has to hand out. */
  function Remaining(pq: seq<Occ>): int {
    if pq == [] then 0 else (MaxOccurrences - pq[0].idx) + Remaining(pq[1..])
  }

  lemma {:induction false} RemainingAppend(a: seq<Occ>, b: seq<Occ>)
    ensures Remaining(a + b) == Remaining(a) + Remaining(b)
    decreases |a|
  {
    if a == [] {
      assert a + b == b;
    } else {
      assert (a + b)[1..] == a[1..] + b;
      RemainingAppend(a[1..], b);
    }
  }

  lemma {:induction false} RemainingAtLeast(pq: seq<Occ>, byId: map<string, Booking>)
    requires QueueOk(pq, byId)
    ensures Remaining(pq) >= |pq|
    decreases |pq|
  {
    if pq != [] {
      assert QueueOk(pq[1..], byId) by {
        assert forall k :: 0 <= k < |pq[1..]| ==> pq[1..][k] == pq[k + 1];
      }
      RemainingAtLeast(pq[1..], byId);
    }
  }

  /** Occurrence `o` is one the queue will still hand out: a later or equal index of a queued booking. */
  ghost predicate Pending(o: Occ, pq: seq<Occ>, byId: map<string, Booking>) {
    && o.id in byId && o.idx < MaxOccurrences && o == OccOf(o.id, byId[o.id], o.idx)
    && exists k :: 0 <= k < |pq| && pq[k].id == o.id && pq[k].idx <= o.idx
  }

  /** The step keeps the queue well-formed. */
  lemma StepOk(pq: seq<Occ>, byId: map<string, Booking>)
    requires QueueOk(pq, byId) && pq != []
    ensures QueueOk(Step(pq, byId).1, byId)
  {
    var k := MinIndex(pq);
    var cur := pq[k];
    DropOk(pq, byId, k);
    if cur.id in byId && cur.idx + 1 < MaxOccurrences {
      PushOk(Drop(pq, k), byId, OccOf(cur.id, byId[cur.id], cur.idx + 1));
    }
  }

  /** Everything left in the queue after a step comes after the polled occurrence. */
  lemma StepAfter(pq: seq<Occ>, byId: map<string, Booking>)
    requires QueueOk(pq, byId) && Rising(byId) && pq != []
    ensures forall j :: 0 <= j < |Step(pq, byId).1| ==> Before(Step(pq, byId).0, Step(pq, byId).1[j])
  {
    var k := MinIndex(pq);
    var cur := pq[k];
    var rest := Drop(pq, k);
    DropOk(pq, byId, k);
    DropIndex(pq, k);
    forall j | 0 <= j < |rest| ensures Before(cur, rest[j]) {
      var i := if j < k then j else j + 1;
      assert rest[j] == pq[i];
      BeforeTotal(cur, pq[i]);
    }
    if cur.id in byId && cur.idx + 1 < MaxOccurrences {
      ChainOrdered(cur.id, byId[cur.id], cur.idx, cur.idx + 1);
    }
  }

  /** Each step hands out one occurrence. */
  lemma StepRemaining(pq: seq<Occ>, byId: map<string, Booking>)
    requires QueueOk(pq, byId) && pq != []
    ensures Remaining(Step(pq, byId).1) == Remaining(pq) - 1
  {
    var k := MinIndex(pq);
    var rest := Drop(pq, k);
    assert pq == pq[..k] + ([pq[k]] + pq[k + 1..]);
    RemainingAppend(pq[..k], [pq[k]] + pq[k + 1..]);
    RemainingAppend([pq[k]], pq[k + 1..]);
    RemainingAppend(pq[..k], pq[k + 1..]);
    if pq[k].idx + 1 < MaxOccurrences {
      RemainingAppend(rest, [OccOf(pq[k].id, byId[pq[k].id], pq[k].idx + 1)]);
    }
  }

  /** What is pending after a step was pending before it. */
  lemma StepPendingBack(pq: seq<Occ>, byId: map<string, Booking>, o: Occ)
    requires QueueOk(pq, byId) && pq != [] && Pending(o, Step(pq, byId).1, byId)
    ensures Pending(o, pq, byId)
  {
    var k := MinIndex(pq);
    var rest := Drop(pq, k);
    var next := Step(pq, byId).1;
    DropIndex(pq, k);
    var j :| 0 <= j < |next| && next[j].id == o.id && next[j].idx <= o.idx;
    if j < |rest| {
      var i := if j < k then j else j + 1;
      assert rest[j] == pq[i];
      assert pq[i].id == o.id && pq[i].idx <= o.idx;
    } else {
      assert pq[k].id == o.id && pq[k].idx <= o.idx;
    }
  }

  /** Nothing pending but the polled occurrence is lost by a step. */
  lemma StepPendingKept(pq: seq<Occ>, byId: map<string, Booking>, o: Occ)
    requires QueueOk(pq, byId) && pq != [] && Pending(o, pq, byId) && o != Step(pq, byId).0
    ensures Pending(o, Step(pq, byId).1, byId)
  {
    var k := MinIndex(pq);
    var cur := pq[k];
    var rest := Drop(pq, k);
    var next := Step(pq, byId).1;
    DropIndex(pq, k);
    var i :| 0 <= i < |pq| && pq[i].id == o.id && pq[i].idx <= o.idx;
    if i < k {
      assert next[i] == rest[i] == pq[i];
    } else if i > k {
      assert next[i - 1] == rest[i - 1] == pq[i];
    } else {
      assert IsOccOf(cur, byId);
      assert cur.idx < o.idx;
      assert next[|rest|].id == o.id && next[|rest|].idx <= o.idx;
    }
  }

  /** Nothing pending comes before the occurrence the step polls. */
  lemma PendingNotBefore(pq: seq<Occ>, byId: map<string, Booking>, o: Occ)
    requires QueueOk(pq, byId) && Rising(byId) && pq != [] && Pending(o, pq, byId)
    ensures !Before(o, Step(pq, byId).0)
  {
    var i :| 0 <= i < |pq| && pq[i].id == o.id && pq[i].idx <= o.idx;
    if pq[i].idx < o.idx {
      ChainOrdered(o.id, byId[o.id], pq[i].idx, o.idx);
      BeforeAsymmetric(pq[i], o);
    } else {
      BeforeIrreflexive(o);
    }
    NotBeforeChain(o, pq[i], Step(pq, byId).0);
  }

  /** The loop hands out `n` occurrences, or all of them when fewer remain. */
  lemma {:induction false} MergeLength(pq: seq<Occ>, byId: map<string, Booking>, n: nat)
    requires QueueOk(pq, byId)
    ensures |Merge(pq, byId, n)| == if n < Remaining(pq) then n else Remaining(pq)
    decreases n
  {
    RemainingAtLeast(pq, byId);
    if n > 0 && pq != [] {
      StepOk(pq, byId);
      StepRemaining(pq, byId);
      MergeLength(Step(pq, byId).1, byId, n - 1);
    }
  }

  /** Everything the loop hands out comes after a bound that the whole queue comes after. */
  lemma {:induction false} MergeAfter(pq: seq<Occ>, byId: map<string, Booking>, n: nat, low: Occ)
    requires QueueOk(pq, byId) && Rising(byId)
    requires forall j :: 0 <= j < |pq| ==> Before(low, pq[j])
    ensures forall e :: e in Merge(pq, byId, n) ==> Before(low, e)
    decreases n
  {
    if n > 0 && pq != [] {
      StepOk(pq, byId);
      StepAfterBound(pq, byId, low);
      MergeAfter(Step(pq, byId).1, byId, n - 1, low);
      MergeCons(pq, byId, n);
      assert Before(low, pq[MinIndex(pq)]);
    }
  }

  /** A bound below the whole queue stays below it after a step. */
  lemma StepAfterBound(pq: seq<Occ>, byId: map<string, Booking>, low: Occ)
    requires QueueOk(pq, byId) && Rising(byId) && pq != []
    requires forall j :: 0 <= j < |pq| ==> Before(low, pq[j])
    ensures forall j :: 0 <= j < |Step(pq, byId).1| ==> Before(low, Step(pq, byId).1[j])
  {
    StepAfter(pq, byId);
    var cur := Step(pq, byId).0;
    var next := Step(pq, byId).1;
    assert Before(low, pq[MinIndex(pq)]);
    forall j | 0 <= j < |next| ensures Before(low, next[j]) {
      BeforeTransitive(low, cur, next[j]);
    }
  }

  /** One unfolding of the loop. */
  lemma MergeCons(pq: seq<Occ>, byId: map<string, Booking>, n: nat)
    requires n > 0 && pq != []
    ensures Merge(pq, byId, n) == [Step(pq, byId).0] + Merge(Step(pq, byId).1, byId, n - 1)
    ensures Merge(pq, byId, n)[0] == Step(pq, byId).0
    ensures |Merge(pq, byId, n)| == 1 + |Merge(Step(pq, byId).1, byId, n - 1)|
    ensures forall i :: 1 <= i < |Merge(pq, byId, n)| ==> Merge(pq, byId, n)[i] == Merge(Step(pq, byId).1, byId, n - 1)[i - 1]
  {
  }

  /** The loop hands out occurrences in strictly increasing comparator order. */
  lemma {:induction false} MergeSorted(pq: seq<Occ>, byId: map<string, Booking>, n: nat)
    requires QueueOk(pq, byId) && Rising(byId)
    ensures forall i, j :: 0 <= i < j < |Merge(pq, byId, n)| ==> Before(Merge(pq, byId, n)[i], Merge(pq, byId, n)[j])
    decreases n
  {
    if n > 0 && pq != [] {
      var t := Merge(Step(pq, byId).1, byId, n - 1);
      StepOk(pq, byId);
      StepAfter(pq, byId);
      MergeSorted(Step(pq, byId).1, byId, n - 1);
      MergeAfter(Step(pq, byId).1, byId, n - 1, Step(pq, byId).0);
      MergeCons(pq, byId, n);
      forall j | 1 <= j < |Merge(pq, byId, n)| ensures Before(Merge(pq, byId, n)[0], Merge(pq, byId, n)[j]) {
        assert t[j - 1] in t;
      }
    }
  }

  /** The loop hands out only pending occurrences. */
  lemma {:induction false} MergePending(pq: seq<Occ>, byId: map<string, Booking>, n: nat)
    requires QueueOk(pq, byId)
    ensures forall o :: o in Merge(pq, byId, n) ==> Pending(o, pq, byId)
    decreases n
  {
    if n > 0 && pq != [] {
      StepOk(pq, byId);
      MergePending(Step(pq, byId).1, byId, n - 1);
      MergeCons(pq, byId, n);
      PolledPending(pq, byId);
      forall o | o in Merge(Step(pq, byId).1, byId, n - 1) ensures Pending(o, pq, byId) {
        StepPendingBack(pq, byId, o);
      }
    }
  }

  /** The polled occurrence was pending. */
  lemma PolledPending(pq: seq<Occ>, byId: map<string, Booking>)
    requires QueueOk(pq, byId) && pq != []
    ensures Pending(Step(pq, byId).0, pq, byId)
  {
    var k := MinIndex(pq);
    assert IsOccOf(pq[k], byId);
  }

  /** A pending occurrence other than the polled one stays pending and does not come before it. */
  lemma StepClosed(pq: seq<Occ>, byId: map<string, Booking>, o: Occ)
    requires QueueOk(pq, byId) && Rising(byId) && pq != [] && Pending(o, pq, byId) && o != Step(pq, byId).0
    ensures QueueOk(Step(pq, byId).1, byId) && Pending(o, Step(pq, byId).1, byId) && !Before(o, Step(pq, byId).0)
  {
    StepOk(pq, byId);
    StepPendingKept(pq, byId, o);
    PendingNotBefore(pq, byId, o);
  }

  /** A pending occurrence that comes before one the loop hands out is handed out too. */
  lemma {:induction false} MergeClosed(pq: seq<Occ>, byId: map<string, Booking>, n: nat, o: Occ, e: Occ)
    requires QueueOk(pq, byId) && Rising(byId) && Pending(o, pq, byId)
    requires e in Merge(pq, byId, n) && Before(o, e)
    ensures o in Merge(pq, byId, n)
    decreases n
  {
    MergeCons(pq, byId, n);
    if o != Step(pq, byId).0 {
      StepClosed(pq, byId, o);
      assert e != Step(pq, byId).0;
      assert e in Merge(Step(pq, byId).1, byId, n - 1);
      MergeClosed(Step(pq, byId).1, byId, n - 1, o, e);
    }
  }

  // ---------------------------------------------------------------------------
  // listBookingsForRoom / listBookingsForEmployee
  // ---------------------------------------------------------------------------

  /** The queue's seed: occurrence 0 of every listed booking, skipping unknown ids. */
  function Seeds(ids: seq<string>, byId: map<string, Booking>): (pq: seq<Occ>)
    ensures forall k :: 0 <= k < |pq| ==> pq[k].id in byId && pq[k].idx == 0 && pq[k] == OccOf(pq[k].id, byId[pq[k].id], 0)
    ensures Indexed(ids, byId) ==> |pq| == |ids| && forall k :: 0 <= k < |pq| ==> pq[k].id == ids[k]
  {
    if ids == [] then []
    else
      var rest := Seeds(ids[1..], byId);
      if ids[0] in byId then [OccOf(ids[0], byId[ids[0]], 0)] + rest else rest
  }

  /** Occurrence `o` is one of the 20 occurrences of a listed booking. */
  ghost predicate IsOccurrence(o: Occ, ids: seq<string>, byId: map<string, Booking>) {
    o.id in ids && o.id in byId && 0 <= o.idx < MaxOccurrences && o == OccOf(o.id, byId[o.id], o.idx)
  }

  /** The seed of a list without repeats is a well-formed queue whose pending occurrences are all 20 of each booking. */
  lemma SeedsOk(ids: seq<string>, byId: map<string, Booking>)
    requires Indexed(ids, byId) && Ordering.Distinct(ids)
    ensures QueueOk(Seeds(ids, byId), byId)
    ensures Remaining(Seeds(ids, byId)) == MaxOccurrences * |ids|
    ensures forall o :: Pending(o, Seeds(ids, byId), byId) <==> IsOccurrence(o, ids, byId)
  {
    SeedsRemaining(Seeds(ids, byId), byId);
    var pq := Seeds(ids, byId);
    forall o | IsOccurrence(o, ids, byId) ensures Pending(o, pq, byId) {
      var k :| 0 <= k < |ids| && ids[k] == o.id;
      assert pq[k].id == o.id;
    }
  }

  lemma {:induction false} SeedsRemaining(pq: seq<Occ>, byId: map<string, Booking>)
    requires forall k :: 0 <= k < |pq| ==> pq[k].idx == 0
    ensures Remaining(pq) == MaxOccurrences * |pq|
    decreases |pq|
  {
    if pq != [] {
      SeedsRemaining(pq[1..], byId);
    }
  }

  /** `listFirstNOccurrences` behind the `n <= 0` check of both listings. */
  function Occurrences(byId: map<string, Booking>, ids: seq<string>, n: int): (r: seq<Occ>)
    ensures n <= 0 ==> r == []
  {
    if n <= 0 || ids == [] then [] else Merge(Seeds(ids, byId), byId, n)
  }

  /**
   * The listing is the first `n` of all 20 occurrences of every listed
   * booking in comparator order: strictly increasing, drawn from those
   * occurrences, missing none that comes before a listed one, and of length
   * `n` unless fewer exist.
   */
  lemma OccurrencesFirstN(byId: map<string, Booking>, ids: seq<string>, n: int)
    requires Indexed(ids, byId) && Ordering.Distinct(ids) && Rising(byId)
    ensures var r := Occurrences(byId, ids, n);
            && |r| == (if n <= 0 then 0 else if n < MaxOccurrences * |ids| then n else MaxOccurrences * |ids|)
            && (forall i, j :: 0 <= i < j < |r| ==> Before(r[i], r[j]))
            && (forall i :: 0 <= i < |r| ==> IsOccurrence(r[i], ids, byId))
            && (forall o, i :: IsOccurrence(o, ids, byId) && 0 <= i < |r| && Before(o, r[i]) ==> o in r)
  {
    if n > 0 && ids != [] {
      var pq := Seeds(ids, byId);
      SeedsOk(ids, byId);
      MergeLength(pq, byId, n);
      MergeSorted(pq, byId, n);
      MergePending(pq, byId, n);
      var r := Merge(pq, byId, n);
      forall i | 0 <= i < |r| ensures IsOccurrence(r[i], ids, byId) {
        assert r[i] in r;
      }
      forall o, i | IsOccurrence(o, ids, byId) && 0 <= i < |r| && Before(o, r[i]) ensures o in r {
        MergeClosed(pq, byId, n, o, r[i]);
      }
    }
  }

  /** One listed occurrence: booking id, start and end joined by dashes. */
  function Line(o: Occ): string {
    o.id + "-" + Strings.IntToString(o.start) + "-" + Strings.IntToString(o.end)
  }

  function Lines(occs: seq<Occ>): (r: seq<string>)
    ensures |r| == |occs| && forall i :: 0 <= i < |occs| ==> r[i] == Line(occs[i])
  {
    if occs == [] then [] else [Line(occs[0])] + Lines(occs[1..])
  }

  /** `listBookingsForRoom(roomId, n)`: a non-positive `n` gives no line, before the room is looked up. */
  function ListRoom(s: Scheduler, room: int, n: int): (l: seq<string>)
    requires n <= 0 || 0 <= room < |s.rooms|
    ensures n <= 0 ==> l == []
    ensures n > 0 ==> |l| == |Occurrences(s.byId, s.rooms[room], n)|
    ensures n > 0 ==> forall i :: 0 <= i < |l| ==> l[i] == Line(Occurrences(s.byId, s.rooms[room], n)[i])
  {
    if n <= 0 then [] else Lines(Occurrences(s.byId, s.rooms[room], n))
  }

  /** `listBookingsForEmployee(employeeId, n)`: a non-positive `n` gives no line, before the employee is looked up. */
  function ListEmployee(s: Scheduler, employee: int, n: int): (l: seq<string>)
    requires n <= 0 || 0 <= employee < |s.employees|
    ensures n <= 0 ==> l == []
    ensures n > 0 ==> |l| == |Occurrences(s.byId, s.employees[employee], n)|
    ensures n > 0 ==> forall i :: 0 <= i < |l| ==> l[i] == Line(Occurrences(s.byId, s.employees[employee], n)[i])
  {
    if n <= 0 then [] else Lines(Occurrences(s.byId, s.employees[employee], n))
  }

  /** In a valid scheduler both listings satisfy the first-`n` property. */
  lemma ListingsFirstN(s: Scheduler, room: int, employee: int, n: int)
    requires Valid(s) && 0 <= room < |s.rooms| && 0 <= employee < |s.employees|
    ensures |ListRoom(s, room, n)| == (if n <= 0 then 0 else if n < MaxOccurrences * |s.rooms[room]| then n else MaxOccurrences * |s.rooms[room]|)
    ensures |ListEmployee(s, employee, n)| == (if n <= 0 then 0 else if n < MaxOccurrences * |s.employees[employee]| then n else MaxOccurrences * |s.employees[employee]|)
  {
    OccurrencesFirstN(s.byId, s.rooms[room], n);
    OccurrencesFirstN(s.byId, s.employees[employee], n);
  }
}
