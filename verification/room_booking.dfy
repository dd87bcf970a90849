/**
 * Meeting room booking (q29-meeting-room-booking, Solution.java).
 *
 * Each room keeps its meetings as a map from start time to end time, both
 * inclusive. A booking scans the rooms in lexicographic order and takes the
 * first one where neither the meeting starting at or before the new start
 * (`floorEntry`) nor the one starting at or after it (`ceilingEntry`)
 * conflicts.
 */
module RoomBooking {
  import opened Common
  import Strings
  import Ordering

  datatype Meeting = Meeting(room: string, start: int, end: int)

  datatype Booking = Booking(
    rooms: seq<string>,
    schedules: map<string, map<int, int>>,
    active: map<string, Meeting>)

  /** `new RoomBooking(roomIds)`: the rooms sorted, each with an empty schedule. */
  function Create(roomIds: seq<string>): (b: Booking)
    ensures forall r :: r in b.rooms <==> r in roomIds
    ensures Sorted(b.rooms)
    ensures forall r :: r in b.rooms ==> r in b.schedules && b.schedules[r] == map[]
    ensures b.active == map[]
  {
    var rooms := Ordering.SortedSet(set r | r in roomIds);
    Booking(rooms, map r | r in rooms :: map[], map[])
  }

  // ---------------------------------------------------------------------------
  // One room's schedule
  // ---------------------------------------------------------------------------

  /** `floorEntry(t)`: the latest start at or before `t`. */
  function Floor(tm: map<int, int>, t: int): (r: Option<int>)
    ensures r.None? <==> forall k :: k in tm ==> k > t
    ensures r.Some? ==> r.value in tm && r.value <= t && forall k :: k in tm && k <= t ==> k <= r.value
  {
    if forall k :: k in tm ==> k > t then None
    else
      var lower := set k | k in tm && k <= t;
      Witness(tm, lower, t, true);
      Some(Ordering.Max(lower))
  }

  /** `ceilingEntry(t)`: the earliest start at or after `t`. */
  function Ceiling(tm: map<int, int>, t: int): (r: Option<int>)
    ensures r.None? <==> forall k :: k in tm ==> k < t
    ensures r.Some? ==> r.value in tm && r.value >= t && forall k :: k in tm && k >= t ==> r.value <= k
  {
    if forall k :: k in tm ==> k < t then None
    else
      var upper := set k | k in tm && k >= t;
      Witness(tm, upper, t, false);
      Some(Ordering.Min(upper))
  }

  /** A key on the wanted side of `t` makes the set of such keys non-empty. */
  lemma Witness(tm: map<int, int>, keys: set<int>, t: int, below: bool)
    requires forall k :: k in keys <==> k in tm && (if below then k <= t else k >= t)
    requires exists k :: k in tm && (if below then k <= t else k >= t)
    ensures keys != {}
  {
    var k :| k in tm && (if below then k <= t else k >= t);
    assert k in keys;
  }

  /** The two neighbour checks of `bookMeeting` for one room. */
  predicate Fits(tm: map<int, int>, s: int, e: int) {
    && !(Floor(tm, s).Some? && tm[Floor(tm, s).value] >= s)
    && !(Ceiling(tm, s).Some? && Ceiling(tm, s).value <= e)
  }

  /** Inclusive intervals `[s, e]` and `[a, b]` share a time. */
  predicate Overlap(s: int, e: int, a: int, b: int) {
    a <= e && s <= b
  }

  /** Every meeting of the room is well-formed and ends before the next one starts. */
  predicate Disjoint(tm: map<int, int>) {
    && (forall a :: a in tm ==> a <= tm[a])
    && (forall a, c :: a in tm && c in tm && a < c ==> tm[a] < c)
  }

  /** On a disjoint schedule the two neighbour checks find every overlap. */
  lemma FitsIffFree(tm: map<int, int>, s: int, e: int)
    requires Disjoint(tm) && s <= e
    ensures Fits(tm, s, e) <==> forall a :: a in tm ==> !Overlap(s, e, a, tm[a])
  {
    if Fits(tm, s, e) {
      forall a | a in tm ensures !Overlap(s, e, a, tm[a]) {
        if a <= s {
          var p := Floor(tm, s).value;
          assert a <= p;
          if a < p {
            assert tm[a] < p;
          }
        } else {
          var c := Ceiling(tm, s).value;
          assert c <= a;
        }
      }
    }
  }

  /** Adding a fitting well-formed meeting keeps the schedule disjoint. */
  lemma PutDisjoint(tm: map<int, int>, s: int, e: int)
    requires Disjoint(tm) && s <= e && Fits(tm, s, e)
    ensures s !in tm
    ensures Disjoint(tm[s := e])
  {
    FitsIffFree(tm, s, e);
    var t := tm[s := e];
    forall a, c | a in t && c in t && a < c ensures t[a] < c {
      if a == s {
        assert !Overlap(s, e, c, tm[c]);
      } else if c == s {
        assert !Overlap(s, e, a, tm[a]);
      }
    }
  }

  // ---------------------------------------------------------------------------
  // Invariant
  // ---------------------------------------------------------------------------

  /** Every room has a schedule. */
  predicate Shaped(b: Booking) {
    forall r :: r in b.rooms ==> r in b.schedules
  }

  /** An active meeting is the entry of its room's schedule at its start time. */
  predicate Recorded(b: Booking, m: Meeting) {
    m.room in b.schedules && m.start in b.schedules[m.room] && b.schedules[m.room][m.start] == m.end
  }

  /**
   * Schedules are disjoint, every active meeting is recorded in its room, and
   * no two active meetings share a room and a start time.
   */
  ghost predicate Valid(b: Booking) {
    && Shaped(b)
    && Sorted(b.rooms)
    && (forall r :: r in b.schedules ==> Disjoint(b.schedules[r]))
    && (forall id :: id in b.active ==> Recorded(b, b.active[id]))
    && (forall i, j :: i in b.active && j in b.active && i != j && b.active[i].room == b.active[j].room ==>
          b.active[i].start != b.active[j].start)
  }

  lemma CreateValid(roomIds: seq<string>)
    ensures Valid(Create(roomIds))
  {
  }

  /** Two active meetings of the same room never share a time. */
  lemma MeetingsDisjoint(b: Booking, i: string, j: string)
    requires Valid(b) && i in b.active && j in b.active && i != j
    requires b.active[i].room == b.active[j].room
    ensures !Overlap(b.active[i].start, b.active[i].end, b.active[j].start, b.active[j].end)
  {
    var tm := b.schedules[b.active[i].room];
    assert Disjoint(tm);
  }

  // ---------------------------------------------------------------------------
  // bookMeeting
  // ---------------------------------------------------------------------------

  /** Position of the first room in `rooms` where the meeting fits, or `|rooms|`. */
  function FirstFit(rooms: seq<string>, schedules: map<string, map<int, int>>, s: int, e: int): (k: nat)
    requires forall r :: r in rooms ==> r in schedules
    ensures k <= |rooms|
    ensures forall j :: 0 <= j < k ==> !Fits(schedules[rooms[j]], s, e)
    ensures k < |rooms| ==> Fits(schedules[rooms[k]], s, e)
  {
    if rooms == [] then 0
    else if Fits(schedules[rooms[0]], s, e) then 0
    else 1 + FirstFit(rooms[1..], schedules, s, e)
  }

  /** Some room can host the meeting. */
  ghost predicate AnyFits(b: Booking, s: int, e: int)
    requires Shaped(b)
  {
    exists x :: x in b.rooms && Fits(b.schedules[x], s, e)
  }

  /**
   * `bookMeeting`: "" for an id that is already active or when no room fits;
   * otherwise a fitting room, which records the meeting. (A room named ""
   * would make a success look like a failure; the state tells them apart.)
   */
  function Book(b: Booking, id: string, s: int, e: int): (r: (Booking, string))
    requires Shaped(b)
    ensures id in b.active || !AnyFits(b, s, e) ==> r == (b, "")
    ensures id !in b.active && AnyFits(b, s, e) ==>
              && r.1 in b.rooms && Fits(b.schedules[r.1], s, e)
              && r.0 == b.(schedules := b.schedules[r.1 := b.schedules[r.1][s := e]],
                           active := b.active[id := Meeting(r.1, s, e)])
  {
    if id in b.active then (b, "")
    else
      var k := FirstFit(b.rooms, b.schedules, s, e);
      if k == |b.rooms| then (b, "")
      else
        var room := b.rooms[k];
        (b.(schedules := b.schedules[room := b.schedules[room][s := e]],
            active := b.active[id := Meeting(room, s, e)]), room)
  }

  /** The rooms are in strictly increasing lexicographic order. */
  predicate Sorted(rooms: seq<string>) {
    forall i, j :: 0 <= i < j < |rooms| ==> Strings.Less(rooms[i], rooms[j])
  }

  /** A booking lands in the lexicographically smallest room that fits. */
  lemma BookSmallest(b: Booking, id: string, s: int, e: int)
    requires Shaped(b) && Sorted(b.rooms) && id !in b.active && AnyFits(b, s, e)
    ensures forall x :: x in b.rooms && Strings.Less(x, Book(b, id, s, e).1) ==> !Fits(b.schedules[x], s, e)
  {
    var k := FirstFit(b.rooms, b.schedules, s, e);
    forall x | x in b.rooms && Strings.Less(x, b.rooms[k]) ensures !Fits(b.schedules[x], s, e) {
      var j :| 0 <= j < |b.rooms| && b.rooms[j] == x;
      if j > k {
        Strings.LessAsymmetric(b.rooms[k], x);
      } else if j == k {
        Strings.LessIrreflexive(x);
      }
    }
  }

  lemma BookValid(b: Booking, id: string, s: int, e: int)
    requires Valid(b) && s <= e
    ensures Valid(Book(b, id, s, e).0)
  {
    if id !in b.active {
      var k := FirstFit(b.rooms, b.schedules, s, e);
      if k < |b.rooms| {
        var room := b.rooms[k];
        PutDisjoint(b.schedules[room], s, e);
        BookKeepsRecorded(b, id, room, s, e);
      }
    }
  }

  lemma BookKeepsRecorded(b: Booking, id: string, room: string, s: int, e: int)
    requires Valid(b) && id !in b.active && room in b.schedules && s !in b.schedules[room]
    ensures var b' := b.(schedules := b.schedules[room := b.schedules[room][s := e]],
                         active := b.active[id := Meeting(room, s, e)]);
            && (forall x :: x in b'.active ==> Recorded(b', b'.active[x]))
            && (forall i, j :: i in b'.active && j in b'.active && i != j && b'.active[i].room == b'.active[j].room ==>
                  b'.active[i].start != b'.active[j].start)
  {
  }

  // ---------------------------------------------------------------------------
  // cancelMeeting
  // ---------------------------------------------------------------------------

  /** `cancelMeeting`: false for an id that is not active; otherwise the meeting and its interval are removed. */
  function Cancel(b: Booking, id: string): (r: (Booking, bool))
    ensures r.1 <==> id in b.active
    ensures !r.1 ==> r.0 == b
    ensures id !in r.0.active && r.0.active == b.active - {id}
  {
    if id !in b.active then (b, false)
    else
      var m := b.active[id];
      if m.room in b.schedules then
        (b.(schedules := b.schedules[m.room := b.schedules[m.room] - {m.start}], active := b.active - {id}), true)
      else
        (b.(active := b.active - {id}), true)
  }

  /** In a valid booking a cancelled meeting frees exactly its own interval. */
  lemma CancelFrees(b: Booking, id: string)
    requires Valid(b) && id in b.active
    ensures var m := b.active[id];
            Cancel(b, id).0.schedules == b.schedules[m.room := b.schedules[m.room] - {m.start}]
  {
  }

  lemma CancelValid(b: Booking, id: string)
    requires Valid(b)
    ensures Valid(Cancel(b, id).0)
  {
    if id in b.active {
      var b' := Cancel(b, id).0;
      var m := b.active[id];
      forall x | x in b'.active ensures Recorded(b', b'.active[x]) {
        var n := b.active[x];
        assert Recorded(b, n);
        if n.room == m.room {
          assert n.start != m.start;
        }
      }
      forall r | r in b'.schedules ensures Disjoint(b'.schedules[r]) {
        assert Disjoint(b.schedules[r]);
      }
    }
  }

  /** Cancelling a meeting just booked restores the schedules and the active meetings. */
  lemma BookThenCancel(b: Booking, id: string, s: int, e: int)
    requires Valid(b) && s <= e && id !in b.active && AnyFits(b, s, e)
    ensures Cancel(Book(b, id, s, e).0, id) == (b, true)
  {
    var room := Book(b, id, s, e).1;
    PutDisjoint(b.schedules[room], s, e);
    Unbook(b, id, room, s, e);
  }

  lemma Unbook(b: Booking, id: string, room: string, s: int, e: int)
    requires id !in b.active && room in b.schedules && s !in b.schedules[room]
    ensures Cancel(b.(schedules := b.schedules[room := b.schedules[room][s := e]],
                      active := b.active[id := Meeting(room, s, e)]), id) == (b, true)
  {
    var tm := b.schedules[room];
    assert tm[s := e] - {s} == tm;
    assert b.schedules[room := tm[s := e]][room := tm] == b.schedules;
    assert b.active[id := Meeting(room, s, e)] - {id} == b.active;
  }
}
