/**
 * The meeting room scheduler (q44-meeting-scheduler, Solution.java).
 *
 * Rooms and employees are numbered from zero. Each keeps its bookings in a
 * `TreeSet` ordered by start time, then booking id. A booking is a closed
 * interval; a room accepts a new one when neither the booking just before it
 * (`floor` of the probe (start, "￿")) nor the one just after it
 * (`ceiling` of the probe (start, "")) overlaps.
 */
module MeetingScheduler {
  import opened Common
  import Strings
  import Ordering

  datatype Booking = Booking(employee: int, room: int, start: int, end: int)

  datatype Scheduler = Scheduler(
    roomsCount: int,
    employeesCount: int,
    byId: map<string, Booking>,
    rooms: seq<set<string>>,
    employees: seq<set<string>>)

  /** `new MeetingRoomScheduler(roomsCount, employeesCount)`: one empty index per room and per employee. */
  function Create(roomsCount: nat, employeesCount: nat): (s: Scheduler)
    ensures |s.rooms| == roomsCount && |s.employees| == employeesCount && s.byId == map[]
    ensures forall r :: 0 <= r < roomsCount ==> s.rooms[r] == {}
    ensures forall e :: 0 <= e < employeesCount ==> s.employees[e] == {}
  {
    Scheduler(roomsCount, employeesCount, map[], seq(roomsCount, _ => {}), seq(employeesCount, _ => {}))
  }

  // ---------------------------------------------------------------------------
  // The order of a room's or employee's bookings
  // ---------------------------------------------------------------------------

  /** The comparator's first key: a booking's start time. */
  function StartKey(byId: map<string, Booking>): string -> int {
    x => if x in byId then byId[x].start else 0
  }

  /** The booking id of the `floor` probe, above every id that does not start with U+FFFF. */
  const HighId: string := "\U{FFFF}"

  /** `overlaps`: closed intervals share a time. */
  predicate Overlaps(b: Booking, start: int, end: int) {
    start <= b.end && b.start <= end
  }

  /** Every id of the index is a booking. */
  predicate Indexed(ids: set<string>, byId: map<string, Booking>) {
    forall x :: x in ids ==> x in byId
  }

  /** Booking `x` is ordered at or before the probe (t, "￿"). */
  predicate AtOrBefore(byId: map<string, Booking>, x: string, t: int)
    requires x in byId
  {
    byId[x].start < t || (byId[x].start == t && Strings.LessEq(x, HighId))
  }

  /** `floorByStart`: the last booking ordered at or before (t, "￿"). */
  function FloorByStart(ids: set<string>, byId: map<string, Booking>, t: int): (r: Option<string>)
    requires Indexed(ids, byId)
    ensures r.Some? ==> r.value in ids && byId[r.value].start <= t
    ensures forall x :: x in ids && byId[x].start < t ==> r.Some? && Ordering.KeyLe(StartKey(byId), x, r.value)
  {
    if forall x :: x in ids ==> !AtOrBefore(byId, x, t) then None
    else
      var below := set x | x in ids && AtOrBefore(byId, x, t);
      var w :| w in ids && AtOrBefore(byId, w, t);
      assert w in below;
      var r := Ordering.Greatest(StartKey(byId), below);
      assert forall x :: x in ids && byId[x].start < t ==> x in below;
      Some(r)
  }

  /** `ceilingByStart`: the first booking ordered at or after (t, ""), that is the first starting at or after `t`. */
  function CeilingByStart(ids: set<string>, byId: map<string, Booking>, t: int): (r: Option<string>)
    requires Indexed(ids, byId)
    ensures r.Some? ==> r.value in ids && byId[r.value].start >= t
    ensures forall x :: x in ids && byId[x].start >= t ==> r.Some? && Ordering.KeyLe(StartKey(byId), r.value, x)
  {
    if forall x :: x in ids ==> byId[x].start < t then None
    else
      var above := set x | x in ids && byId[x].start >= t;
      var w :| w in ids && byId[w].start >= t;
      assert w in above;
      var r := Ordering.Least(StartKey(byId), above);
      assert forall x :: x in ids && byId[x].start >= t ==> x in above;
      Some(r)
  }

  /** The neighbour checks of `bookRoom` and `getAvailableRooms` find a conflict in this index. */
  predicate Busy(ids: set<string>, byId: map<string, Booking>, start: int, end: int)
    requires Indexed(ids, byId)
  {
    var prev := FloorByStart(ids, byId, start);
    var next := CeilingByStart(ids, byId, start);
    (prev.Some? && Overlaps(byId[prev.value], start, end)) || (next.Some? && Overlaps(byId[next.value], start, end))
  }

  /** The bookings of one room are well-formed and pairwise apart. */
  predicate RoomDisjoint(ids: set<string>, byId: map<string, Booking>)
    requires Indexed(ids, byId)
  {
    && (forall x :: x in ids ==> byId[x].start <= byId[x].end)
    && (forall x, y :: x in ids && y in ids && x != y ==> !Overlaps(byId[x], byId[y].start, byId[y].end))
  }

  /** On a room whose bookings are apart the two neighbour checks find every overlap. */
  lemma BusyIffOverlap(ids: set<string>, byId: map<string, Booking>, start: int, end: int)
    requires Indexed(ids, byId) && RoomDisjoint(ids, byId) && start <= end
    ensures Busy(ids, byId, start, end) <==> exists x :: x in ids && Overlaps(byId[x], start, end)
  {
    if a :| a in ids && Overlaps(byId[a], start, end) {
      if byId[a].start < start {
        var p := FloorByStart(ids, byId, start).value;
        if p != a {
          assert !Overlaps(byId[a], byId[p].start, byId[p].end);
        }
      }
    }
  }

  // ---------------------------------------------------------------------------
  // Invariant
  // ---------------------------------------------------------------------------

  /** One index per room and per employee, each holding only known bookings. */
  predicate Shaped(s: Scheduler) {
    && |s.rooms| == s.roomsCount && |s.employees| == s.employeesCount
    && (forall r :: 0 <= r < |s.rooms| ==> Indexed(s.rooms[r], s.byId))
    && (forall e :: 0 <= e < |s.employees| ==> Indexed(s.employees[e], s.byId))
  }

  /** Every booking names a room and an employee that exist. */
  predicate InRange(s: Scheduler) {
    forall id :: id in s.byId ==> 0 <= s.byId[id].room < |s.rooms| && 0 <= s.byId[id].employee < |s.employees|
  }

  /**
   * The two indexes list exactly the bookings of their room or employee, and
   * the bookings of a room are pairwise apart.
   */
  ghost predicate Valid(s: Scheduler) {
    Shaped(s) && InRange(s) && Consistent(s) && Apart(s)
  }

  /** A booking is in exactly the indexes of its own room and employee. */
  predicate Consistent(s: Scheduler)
    requires Shaped(s) && InRange(s)
  {
    && (forall id :: id in s.byId ==> id in s.rooms[s.byId[id].room] && id in s.employees[s.byId[id].employee])
    && (forall r, id :: 0 <= r < |s.rooms| && id in s.rooms[r] ==> s.byId[id].room == r)
    && (forall e, id :: 0 <= e < |s.employees| && id in s.employees[e] ==> s.byId[id].employee == e)
  }

  predicate Apart(s: Scheduler)
    requires Shaped(s)
  {
    forall r :: 0 <= r < |s.rooms| ==> RoomDisjoint(s.rooms[r], s.byId)
  }

  /** Bookings that keep their times stay apart in a smaller index. */
  lemma DisjointFrame(ids: set<string>, byId: map<string, Booking>, ids': set<string>, byId': map<string, Booking>)
    requires Indexed(ids, byId) && RoomDisjoint(ids, byId) && ids' <= ids
    requires forall x :: x in ids' ==> x in byId' && byId'[x] == byId[x]
    ensures Indexed(ids', byId') && RoomDisjoint(ids', byId')
  {
  }

  /** A booking that overlaps none of the room's stays apart from them once added. */
  lemma DisjointAdd(ids: set<string>, byId: map<string, Booking>, id: string, b: Booking)
    requires Indexed(ids, byId) && RoomDisjoint(ids, byId) && id !in byId && b.start <= b.end
    requires forall x :: x in ids ==> !Overlaps(byId[x], b.start, b.end)
    ensures Indexed(ids + {id}, byId[id := b]) && RoomDisjoint(ids + {id}, byId[id := b])
  {
    DisjointFrame(ids, byId, ids, byId[id := b]);
  }

  lemma CreateValid(roomsCount: nat, employeesCount: nat)
    ensures Valid(Create(roomsCount, employeesCount))
  {
  }

  // ---------------------------------------------------------------------------
  // bookRoom
  // ---------------------------------------------------------------------------

  /** The argument checks of `bookRoom` before it looks at the room. */
  predicate Acceptable(s: Scheduler, id: string, start: int, end: int) {
    !Strings.IsBlank(id) && start <= end && 0 <= start && id !in s.byId
  }

  /** `bookRoom`: false for a blank or known id, a reversed interval, a negative start, or a conflict in the room. */
  function Book(s: Scheduler, id: string, employee: int, room: int, start: int, end: int): (r: (Scheduler, bool))
    requires Shaped(s) && 0 <= room < |s.rooms| && 0 <= employee < |s.employees|
    ensures r.1 <==> Acceptable(s, id, start, end) && !Busy(s.rooms[room], s.byId, start, end)
    ensures !r.1 ==> r.0 == s
    ensures r.1 ==> r.0.byId == s.byId[id := Booking(employee, room, start, end)]
    ensures r.1 ==> r.0.rooms == s.rooms[room := s.rooms[room] + {id}]
    ensures r.1 ==> r.0.employees == s.employees[employee := s.employees[employee] + {id}]
  {
    if Strings.IsBlank(id) then (s, false)
    else if start > end || start < 0 then (s, false)
    else if id in s.byId then (s, false)
    else
      var roomSet := s.rooms[room];
      var prev := FloorByStart(roomSet, s.byId, start);
      if prev.Some? && Overlaps(s.byId[prev.value], start, end) then (s, false)
      else
        var next := CeilingByStart(roomSet, s.byId, start);
        if next.Some? && Overlaps(s.byId[next.value], start, end) then (s, false)
        else
          var b := Booking(employee, room, start, end);
          (s.(byId := s.byId[id := b],
              rooms := s.rooms[room := roomSet + {id}],
              employees := s.employees[employee := s.employees[employee] + {id}]), true)
  }

  /** A booking is accepted exactly when its arguments pass and no booking of the room overlaps it. */
  lemma BookIffFree(s: Scheduler, id: string, employee: int, room: int, start: int, end: int)
    requires Valid(s) && 0 <= room < |s.rooms| && 0 <= employee < |s.employees|
    ensures Book(s, id, employee, room, start, end).1 <==>
              Acceptable(s, id, start, end) && forall x :: x in s.rooms[room] ==> !Overlaps(s.byId[x], start, end)
  {
    if Acceptable(s, id, start, end) {
      BusyIffOverlap(s.rooms[room], s.byId, start, end);
    }
  }

  lemma BookValid(s: Scheduler, id: string, employee: int, room: int, start: int, end: int)
    requires Valid(s) && 0 <= room < |s.rooms| && 0 <= employee < |s.employees|
    ensures Valid(Book(s, id, employee, room, start, end).0)
  {
    if Book(s, id, employee, room, start, end).1 {
      BookIffFree(s, id, employee, room, start, end);
      var s' := Book(s, id, employee, room, start, end).0;
      var b := Booking(employee, room, start, end);
      BookConsistent(s, id, b);
      forall r | 0 <= r < |s'.rooms| ensures RoomDisjoint(s'.rooms[r], s'.byId) {
        if r == room {
          DisjointAdd(s.rooms[r], s.byId, id, b);
        } else {
          DisjointFrame(s.rooms[r], s.byId, s.rooms[r], s'.byId);
        }
      }
    }
  }

  lemma BookConsistent(s: Scheduler, id: string, b: Booking)
    requires Valid(s) && id !in s.byId && 0 <= b.room < |s.rooms| && 0 <= b.employee < |s.employees|
    ensures var s' := s.(byId := s.byId[id := b],
                         rooms := s.rooms[b.room := s.rooms[b.room] + {id}],
                         employees := s.employees[b.employee := s.employees[b.employee] + {id}]);
            Shaped(s') && InRange(s') && Consistent(s')
  {
  }

  // ---------------------------------------------------------------------------
  // getAvailableRooms
  // ---------------------------------------------------------------------------

  /** Room `r` passes the checks of `getAvailableRooms`. */
  predicate RoomFree(s: Scheduler, r: int, start: int, end: int)
    requires Shaped(s) && 0 <= r < |s.rooms|
  {
    s.rooms[r] == {} || !Busy(s.rooms[r], s.byId, start, end)
  }

  function AvailableFrom(s: Scheduler, r: nat, start: int, end: int): (a: seq<int>)
    requires Shaped(s)
    ensures forall x :: x in a <==> r <= x < |s.rooms| && RoomFree(s, x, start, end)
    ensures forall i, j :: 0 <= i < j < |a| ==> a[i] < a[j]
    decreases |s.rooms| - r
  {
    if r >= |s.rooms| then []
    else
      var rest := AvailableFrom(s, r + 1, start, end);
      assert forall i :: 0 <= i < |rest| ==> rest[i] in rest && rest[i] > r;
      if RoomFree(s, r, start, end) then [r] + rest else rest
  }

  /** `getAvailableRooms`: the free rooms in ascending order; none for a reversed interval. */
  function AvailableRooms(s: Scheduler, start: int, end: int): (a: seq<int>)
    requires Shaped(s)
    ensures start > end ==> a == []
    ensures start <= end ==> forall x :: x in a <==> 0 <= x < |s.rooms| && RoomFree(s, x, start, end)
    ensures forall i, j :: 0 <= i < j < |a| ==> a[i] < a[j]
  {
    if start > end then [] else AvailableFrom(s, 0, start, end)
  }

  /** A room is listed exactly when none of its bookings overlaps the interval. */
  lemma AvailableIffFree(s: Scheduler, start: int, end: int, r: int)
    requires Valid(s) && start <= end && 0 <= r < |s.rooms|
    ensures r in AvailableRooms(s, start, end) <==> forall x :: x in s.rooms[r] ==> !Overlaps(s.byId[x], start, end)
  {
    BusyIffOverlap(s.rooms[r], s.byId, start, end);
  }

  /** A well-formed new booking succeeds exactly in the rooms that `getAvailableRooms` lists. */
  lemma BookIffAvailable(s: Scheduler, id: string, employee: int, room: int, start: int, end: int)
    requires Valid(s) && 0 <= room < |s.rooms| && 0 <= employee < |s.employees|
    requires Acceptable(s, id, start, end)
    ensures Book(s, id, employee, room, start, end).1 <==> room in AvailableRooms(s, start, end)
  {
    BookIffFree(s, id, employee, room, start, end);
    AvailableIffFree(s, start, end, room);
  }

  // ---------------------------------------------------------------------------
  // cancelBooking
  // ---------------------------------------------------------------------------

  /** `cancelBooking`: false for an unknown id; otherwise the booking leaves the registry and both indexes. */
  function Cancel(s: Scheduler, id: string): (r: (Scheduler, bool))
    requires InRange(s)
    ensures r.1 <==> id in s.byId
    ensures !r.1 ==> r.0 == s
    ensures r.0.byId == s.byId - {id}
    ensures r.1 ==> r.0.rooms == s.rooms[s.byId[id].room := s.rooms[s.byId[id].room] - {id}]
    ensures r.1 ==> r.0.employees == s.employees[s.byId[id].employee := s.employees[s.byId[id].employee] - {id}]
  {
    if id !in s.byId then (s, false)
    else
      var b := s.byId[id];
      (s.(byId := s.byId - {id},
          rooms := s.rooms[b.room := s.rooms[b.room] - {id}],
          employees := s.employees[b.employee := s.employees[b.employee] - {id}]), true)
  }

  /** After a cancellation no index mentions the booking. */
  lemma CancelRemoves(s: Scheduler, id: string)
    requires Valid(s)
    ensures var s' := Cancel(s, id).0;
            && (forall r :: 0 <= r < |s'.rooms| ==> id !in s'.rooms[r])
            && (forall e :: 0 <= e < |s'.employees| ==> id !in s'.employees[e])
  {
  }

  lemma CancelValid(s: Scheduler, id: string)
    requires Valid(s)
    ensures Valid(Cancel(s, id).0)
  {
    if id in s.byId {
      var s' := Cancel(s, id).0;
      CancelConsistent(s, id);
      forall r | 0 <= r < |s'.rooms| ensures RoomDisjoint(s'.rooms[r], s'.byId) {
        DisjointFrame(s.rooms[r], s.byId, s'.rooms[r], s'.byId);
      }
    }
  }

  lemma CancelConsistent(s: Scheduler, id: string)
    requires Valid(s) && id in s.byId
    ensures var s' := Cancel(s, id).0;
            && Shaped(s') && InRange(s') && Consistent(s')
            && forall r :: 0 <= r < |s'.rooms| ==> s'.rooms[r] <= s.rooms[r] && id !in s'.rooms[r]
  {
  }

  // ---------------------------------------------------------------------------
  // listBookingsForRoom / listBookingsForEmployee
  // ---------------------------------------------------------------------------

  /** The ids of an index ordered by (start time, booking id). */
  ghost predicate Listed(l: seq<string>, ids: set<string>, byId: map<string, Booking>) {
    && |l| == |ids|
    && (forall x :: x in l <==> x in ids)
    && (forall i, j :: 0 <= i < j < |l| ==> l[i] != l[j] && Ordering.KeyLe(StartKey(byId), l[i], l[j]))
  }

  /** `listBookingsForRoom`: the room's bookings by start time, then booking id. */
  function ListRoom(s: Scheduler, room: int): (l: seq<string>)
    requires 0 <= room < |s.rooms|
    ensures Listed(l, s.rooms[room], s.byId)
  {
    Ordering.SortedBy(StartKey(s.byId), s.rooms[room])
  }

  /** `listBookingsForEmployee`: the employee's bookings by start time, then booking id. */
  function ListEmployee(s: Scheduler, employee: int): (l: seq<string>)
    requires 0 <= employee < |s.employees|
    ensures Listed(l, s.employees[employee], s.byId)
  {
    Ordering.SortedBy(StartKey(s.byId), s.employees[employee])
  }

  /** In a listing, an earlier booking never starts later. */
  lemma ListedByStart(l: seq<string>, ids: set<string>, byId: map<string, Booking>, i: int, j: int)
    requires Listed(l, ids, byId) && Indexed(ids, byId) && 0 <= i < j < |l|
    ensures byId[l[i]].start <= byId[l[j]].start
    ensures byId[l[i]].start == byId[l[j]].start ==> Strings.Less(l[i], l[j])
  {
    assert l[i] in ids && l[j] in ids;
    assert Ordering.KeyLe(StartKey(byId), l[i], l[j]);
  }
}
