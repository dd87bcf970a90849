/**
 * The single-lift simulation (q24-elevator-single-lift-simulation, LiftSystem.java).
 *
 * The car sits on a floor with a direction (up, down or idle) and a number
 * of riders aboard; `drop[f]` counts the riders aboard who leave at floor
 * `f`. Riders who have not boarded wait in a per-floor queue for their
 * direction, holding their destination. Each `tick` moves the car at most
 * one floor; on arrival riders alight first and then the queue for the
 * car's direction boards while seats remain.
 */
module LiftSimulation {
  import opened Common
  import opened Strings
  import opened Ordering

  datatype Direction = Up | Down | Idle

  datatype Sim = Sim(
    floors: int,
    capacity: int,
    floor: int,
    dir: Direction,
    onboard: int,
    drop: seq<int>,
    waitUp: seq<seq<int>>,
    waitDown: seq<seq<int>>)

  datatype SimError = FloorsOutOfRange | CapacityOutOfRange

  /** The arrays have one entry per floor and the car is inside the building. */
  predicate Shaped(s: Sim) {
    && 2 <= s.floors <= 200 && 1 <= s.capacity <= 20
    && |s.drop| == s.floors && |s.waitUp| == s.floors && |s.waitDown| == s.floors
    && 0 <= s.floor < s.floors
  }

  /** Everyone waiting to go up is headed above their floor, everyone waiting to go down below it. */
  predicate QueuesOk(s: Sim)
    requires Shaped(s)
  {
    && (forall f, k :: 0 <= f < s.floors && 0 <= k < |s.waitUp[f]| ==> f < s.waitUp[f][k] < s.floors)
    && (forall f, k :: 0 <= f < s.floors && 0 <= k < |s.waitDown[f]| ==> 0 <= s.waitDown[f][k] < f)
  }

  /** The state every public operation works on. */
  predicate WellFormed(s: Sim) {
    Shaped(s) && QueuesOk(s)
  }

  /** The riders aboard are exactly those counted in `drop`, and there is a seat for each. */
  predicate Seated(s: Sim)
    requires Shaped(s)
  {
    && (forall f :: 0 <= f < s.floors ==> s.drop[f] >= 0)
    && s.onboard == Sum(s.drop) && 0 <= s.onboard <= s.capacity
  }

  /** The invariant between calls: well formed, seated, and nobody aboard is headed for the floor the car is on. */
  predicate Valid(s: Sim) {
    WellFormed(s) && Seated(s) && s.drop[s.floor] == 0
  }

  /** `new LiftSystem(floors, liftsCapacity)`: the two range checks in order, then the car idle and empty at floor 0. */
  function Create(floors: int, capacity: int): (r: Result<Sim, SimError>)
    ensures r.Ok? <==> 2 <= floors <= 200 && 1 <= capacity <= 20
    ensures !(2 <= floors <= 200) ==> r == Err(FloorsOutOfRange)
    ensures r.Ok? ==> Valid(r.value) && r.value.floors == floors && r.value.capacity == capacity
    ensures r.Ok? ==> State(r.value) == "0-I-0"
  {
    if floors < 2 || floors > 200 then Err(FloorsOutOfRange)
    else if capacity < 1 || capacity > 20 then Err(CapacityOutOfRange)
    else
      var s := Sim(floors, capacity, 0, Idle, 0, seq(floors, _ => 0), seq(floors, _ => []), seq(floors, _ => []));
      SumZeros(floors);
      assert IntToString(0) == "0";
      Ok(s)
  }

  // ---------------------------------------------------------------------------
  // getLiftState
  // ---------------------------------------------------------------------------

  function DirChar(d: Direction): char {
    match d
    case Up => 'U'
    case Down => 'D'
    case Idle => 'I'
  }

  /** `getLiftState`: floor, direction letter and riders aboard, separated by dashes. */
  function State(s: Sim): string {
    IntToString(s.floor) + "-" + [DirChar(s.dir)] + "-" + IntToString(s.onboard)
  }

  /** The state string splits into three fields that give back the floor, the direction and the riders aboard. */
  lemma StateRoundTrip(s: Sim)
    requires Valid(s)
    ensures |Split(State(s), '-')| == 3
    ensures ParseInt(Split(State(s), '-')[0]) == Some(s.floor)
    ensures Split(State(s), '-')[1] == [DirChar(s.dir)]
    ensures ParseInt(Split(State(s), '-')[2]) == Some(s.onboard)
  {
    var a := IntToString(s.floor);
    var b := IntToString(s.onboard);
    var fields := [a, [DirChar(s.dir)], b];
    assert '-' !in a && '-' !in b;
    assert Join(fields, '-') == State(s) by {
      assert fields[1..] == [[DirChar(s.dir)], b];
      assert fields[1..][1..] == [b];
      assert Join(fields[1..], '-') == [DirChar(s.dir)] + "-" + b;
    }
    SplitJoin(fields, '-');
    IntRoundTrip(s.floor);
    IntRoundTrip(s.onboard);
  }

  // ---------------------------------------------------------------------------
  // Boarding and alighting
  // ---------------------------------------------------------------------------

  /** `boardNow`: one more rider aboard, headed for `dest`. */
  function BoardNow(s: Sim, dest: int): (r: Sim)
    requires 0 <= dest < |s.drop|
    ensures r == s.(onboard := r.onboard, drop := r.drop)
    ensures r.onboard == s.onboard + 1 && Sum(r.drop) == Sum(s.drop) + 1
    ensures |r.drop| == |s.drop| && r.drop[dest] == s.drop[dest] + 1
    ensures forall f :: 0 <= f < |s.drop| && f != dest ==> r.drop[f] == s.drop[f]
  {
    SumUpdate(s.drop, dest, s.drop[dest] + 1);
    s.(onboard := s.onboard + 1, drop := s.drop[dest := s.drop[dest] + 1])
  }

  /** How many riders board from a queue of `n` when `seats` are free: all of them, or one per free seat. */
  function Boarding(seats: int, n: int): int {
    if seats <= 0 then 0
    else if n <= seats then n
    else seats
  }

  /** The boarding loop over the drop counts: riders leave the front of `q` one by one while seats remain; the result also says how many boarded. */
  function Board(seats: int, drop: seq<int>, q: seq<int>): (r: (seq<int>, nat))
    requires forall k :: 0 <= k < |q| ==> 0 <= q[k] < |drop|
    ensures r.1 == Boarding(seats, |q|)
    ensures |r.0| == |drop|
    decreases |q|
  {
    if q == [] || seats <= 0 then (drop, 0)
    else
      var d := q[0];
      var t := Board(seats - 1, drop[d := drop[d] + 1], q[1..]);
      (t.0, t.1 + 1)
  }

  /** The total of the drop counts grows by the number boarded. */
  lemma {:induction false} BoardSum(seats: int, drop: seq<int>, q: seq<int>)
    requires forall k :: 0 <= k < |q| ==> 0 <= q[k] < |drop|
    ensures Sum(Board(seats, drop, q).0) == Sum(drop) + Board(seats, drop, q).1
    decreases |q|
  {
    if q != [] && seats > 0 {
      var d := q[0];
      SumUpdate(drop, d, drop[d] + 1);
      BoardSum(seats - 1, drop[d := drop[d] + 1], q[1..]);
    }
  }

  /** Each boarded rider adds one to the drop count of its destination. */
  lemma {:induction false} BoardDropAt(seats: int, drop: seq<int>, q: seq<int>, f: int)
    requires forall k :: 0 <= k < |q| ==> 0 <= q[k] < |drop|
    requires 0 <= f < |drop|
    ensures Board(seats, drop, q).0[f] == drop[f] + multiset(q[..Board(seats, drop, q).1])[f]
    decreases |q|
  {
    if q != [] && seats > 0 {
      var d := q[0];
      var drop' := drop[d := drop[d] + 1];
      BoardDropAt(seats - 1, drop', q[1..], f);
      var k := Board(seats - 1, drop', q[1..]).1;
      var tail := q[1..][..k];
      assert q[..k + 1] == [d] + tail;
      assert multiset(q[..k + 1])[f] == multiset([d])[f] + multiset(tail)[f];
    }
  }

  /** The queue the car serves at its floor in its direction (the down queue when idle). */
  function Queue(s: Sim): seq<int>
    requires Shaped(s)
  {
    if s.dir == Up then s.waitUp[s.floor] else s.waitDown[s.floor]
  }

  /** `boardHere`: the queue for the car's direction boards while seats remain; those left keep their place. */
  function BoardHere(s: Sim): (r: Sim)
    requires WellFormed(s)
    ensures WellFormed(r)
    ensures r.floors == s.floors && r.capacity == s.capacity && r.floor == s.floor && r.dir == s.dir
    ensures var k := Boarding(s.capacity - s.onboard, |Queue(s)|);
            r.onboard == s.onboard + k && Queue(r) == Queue(s)[k..] && |r.drop| == |s.drop|
    ensures s.dir == Up ==> r.waitDown == s.waitDown && (forall f :: 0 <= f < s.floors && f != s.floor ==> r.waitUp[f] == s.waitUp[f])
    ensures s.dir != Up ==> r.waitUp == s.waitUp && (forall f :: 0 <= f < s.floors && f != s.floor ==> r.waitDown[f] == s.waitDown[f])
  {
    if s.onboard >= s.capacity then s
    else
      var q := Queue(s);
      var t := Board(s.capacity - s.onboard, s.drop, q);
      var rest := q[t.1..];
      var s' := s.(onboard := s.onboard + t.1, drop := t.0);
      if s.dir == Up then s'.(waitUp := s.waitUp[s.floor := rest])
      else s'.(waitDown := s.waitDown[s.floor := rest])
  }

  /** The riders who board are the first `k` of the queue: each adds one to the drop count of its destination. */
  lemma BoardHereDrops(s: Sim)
    requires WellFormed(s)
    ensures var r := BoardHere(s);
            var k := Boarding(s.capacity - s.onboard, |Queue(s)|);
            && Sum(r.drop) == Sum(s.drop) + k
            && forall f :: 0 <= f < s.floors ==> r.drop[f] == s.drop[f] + multiset(Queue(s)[..k])[f]
  {
    if s.onboard < s.capacity {
      var q := Queue(s);
      BoardSum(s.capacity - s.onboard, s.drop, q);
      forall f | 0 <= f < s.floors
        ensures BoardHere(s).drop[f] == s.drop[f] + multiset(q[..Board(s.capacity - s.onboard, s.drop, q).1])[f]
      {
        BoardDropAt(s.capacity - s.onboard, s.drop, q, f);
      }
    }
  }

  /** `alightHere`: everyone headed for this floor gets off. */
  function AlightHere(s: Sim): (r: Sim)
    requires Shaped(s)
    ensures r == s.(onboard := r.onboard, drop := r.drop)
    ensures s.drop[s.floor] >= 0 ==>
              && r.onboard == s.onboard - s.drop[s.floor]
              && Sum(r.drop) == Sum(s.drop) - s.drop[s.floor]
              && |r.drop| == |s.drop| && r.drop[s.floor] == 0
              && (forall f :: 0 <= f < s.floors && f != s.floor ==> r.drop[f] == s.drop[f])
    ensures s.drop[s.floor] < 0 ==> r == s
  {
    if s.drop[s.floor] > 0 then
      SumUpdate(s.drop, s.floor, 0);
      s.(onboard := s.onboard - s.drop[s.floor], drop := s.drop[s.floor := 0])
    else
      assert s.drop[s.floor] == 0 ==> s.drop[s.floor := 0] == s.drop;
      s
  }

  // ---------------------------------------------------------------------------
  // Looking for work
  // ---------------------------------------------------------------------------

  /** Floor `f` has someone to drop off or someone waiting in either direction. */
  predicate Busy(s: Sim, f: int)
    requires Shaped(s) && 0 <= f < s.floors
  {
    s.drop[f] > 0 || s.waitUp[f] != [] || s.waitDown[f] != []
  }

  /** `hasAnyWork`: riders aboard or anyone waiting anywhere. */
  predicate HasAnyWork(s: Sim)
    requires Shaped(s)
  {
    s.onboard > 0 || exists f :: 0 <= f < s.floors && (s.waitUp[f] != [] || s.waitDown[f] != [])
  }

  /** `hasWorkAhead`: going up, a drop above or an up-caller at or above the car; going down, the mirror image; never when idle. */
  predicate HasWorkAhead(s: Sim, d: Direction)
    requires Shaped(s)
  {
    match d
    case Up =>
      || (exists f :: s.floor < f < s.floors && s.drop[f] > 0)
      || (exists f :: s.floor <= f < s.floors && s.waitUp[f] != [])
    case Down =>
      || (exists f :: 0 <= f < s.floor && s.drop[f] > 0)
      || (exists f :: 0 <= f <= s.floor && s.waitDown[f] != [])
    case Idle => false
  }

  /** The nearest busy floor at or above `f`. */
  function ScanUp(s: Sim, f: int): (r: Option<int>)
    requires Shaped(s) && 0 <= f
    ensures r.Some? ==> f <= r.value < s.floors && Busy(s, r.value)
    ensures forall g :: f <= g < s.floors && (r.None? || g < r.value) ==> !Busy(s, g)
    decreases s.floors - f
  {
    if f >= s.floors then None
    else if Busy(s, f) then Some(f)
    else ScanUp(s, f + 1)
  }

  /** The nearest busy floor at or below `f`. */
  function ScanDown(s: Sim, f: int): (r: Option<int>)
    requires Shaped(s) && f < s.floors
    ensures r.Some? ==> 0 <= r.value <= f && Busy(s, r.value)
    ensures forall g :: 0 <= g <= f && (r.None? || g > r.value) ==> !Busy(s, g)
    decreases f + 1
  {
    if f < 0 then None
    else if Busy(s, f) then Some(f)
    else ScanDown(s, f - 1)
  }

  /**
   * `directionTowardNearestWork`: a caller at this floor first (up before
   * down) when a seat is free; otherwise toward the nearest busy floor,
   * preferring up on a tie; idle when no other floor is busy.
   */
  function Nearest(s: Sim): (d: Direction)
    requires Shaped(s)
    ensures d == Idle <==>
              && (s.onboard >= s.capacity || (s.waitUp[s.floor] == [] && s.waitDown[s.floor] == []))
              && (forall g :: 0 <= g < s.floors && g != s.floor ==> !Busy(s, g))
    ensures d == Up && s.waitUp[s.floor] == [] ==> exists g :: s.floor < g < s.floors && Busy(s, g)
  {
    if s.onboard < s.capacity && s.waitUp[s.floor] != [] then Up
    else if s.onboard < s.capacity && s.waitDown[s.floor] != [] then Down
    else
      var above := ScanUp(s, s.floor + 1);
      var below := ScanDown(s, s.floor - 1);
      if above.None? && below.None? then Idle
      else if below.None? then Up
      else if above.None? then Down
      else if above.value - s.floor <= s.floor - below.value then Up
      else Down
  }

  // ---------------------------------------------------------------------------
  // tick
  // ---------------------------------------------------------------------------

  /** One floor in the car's direction, staying inside the building. */
  function Move(s: Sim): (r: Sim)
    requires Shaped(s)
    ensures Shaped(r) && r == s.(floor := r.floor)
    ensures s.dir == Up ==> r.floor == if s.floor < s.floors - 1 then s.floor + 1 else s.floor
    ensures s.dir == Down ==> r.floor == if s.floor > 0 then s.floor - 1 else s.floor
    ensures s.dir == Idle ==> r == s
  {
    if s.dir == Up && s.floor < s.floors - 1 then s.(floor := s.floor + 1)
    else if s.dir == Down && s.floor > 0 then s.(floor := s.floor - 1)
    else s
  }

  /** Move, alight, board, and retarget (with a second boarding at the same floor) when nothing is left ahead. */
  function Arrive(s: Sim): (r: Sim)
    requires WellFormed(s)
    ensures WellFormed(r) && r.floors == s.floors && r.capacity == s.capacity
    ensures -1 <= r.floor - s.floor <= 1
  {
    var s4 := BoardHere(AlightHere(Move(s)));
    if HasWorkAhead(s4, s4.dir) then s4
    else if Nearest(s4) == Idle then s4.(dir := Idle)
    else BoardHere(s4.(dir := Nearest(s4)))
  }

  /** `tick`: pick a direction if idle, retarget if nothing is ahead, then arrive one floor on. */
  function Tick(s: Sim): (r: Sim)
    requires WellFormed(s)
    ensures WellFormed(r) && r.floors == s.floors && r.capacity == s.capacity
    ensures -1 <= r.floor - s.floor <= 1 && 0 <= r.floor < r.floors
  {
    if s.dir == Idle && !HasAnyWork(s) then s
    else if s.dir == Idle && Nearest(s) == Idle then s
    else
      var s1 := if s.dir == Idle then s.(dir := Nearest(s)) else s;
      if !HasWorkAhead(s1, s1.dir) && Nearest(s1) == Idle then s1.(dir := Idle)
      else
        var s2 := if !HasWorkAhead(s1, s1.dir) then s1.(dir := Nearest(s1)) else s1;
        Arrive(s2)
  }

  // ---------------------------------------------------------------------------
  // addRequest
  // ---------------------------------------------------------------------------

  /** `enqueue`: the rider joins the back of the queue at `start` for its direction. */
  function Enqueue(s: Sim, start: int, dest: int, d: Direction): (r: Sim)
    requires Shaped(s) && 0 <= start < s.floors
    ensures d == Up ==> r == s.(waitUp := s.waitUp[start := s.waitUp[start] + [dest]])
    ensures d != Up ==> r == s.(waitDown := s.waitDown[start := s.waitDown[start] + [dest]])
  {
    if d == Up then s.(waitUp := s.waitUp[start := s.waitUp[start] + [dest]])
    else s.(waitDown := s.waitDown[start := s.waitDown[start] + [dest]])
  }

  predicate InBuilding(s: Sim, f: int) {
    0 <= f < s.floors
  }

  /** A same-direction request whose start the car has already passed on this pass. */
  predicate AlreadyPassed(s: Sim, start: int, dest: int) {
    || (s.dir == Up && dest > start && start < s.floor)
    || (s.dir == Down && dest < start && start > s.floor)
  }

  /** The rider would board at once: the car is at the start floor, idle or heading the rider's way. */
  predicate BoardsAtOnce(s: Sim, start: int, dest: int) {
    start == s.floor && (s.dir == Idle || s.dir == (if dest > start then Up else Down))
  }

  /** `addRequest`: reject bad floors and passed callers; board at once when possible (a seat is required); otherwise queue. */
  function AddRequest(s: Sim, start: int, dest: int): (r: (Sim, bool))
    requires WellFormed(s)
    ensures !InBuilding(s, start) || !InBuilding(s, dest) || start == dest ==> r == (s, false)
    ensures InBuilding(s, start) && InBuilding(s, dest) && start != dest ==>
              && (r.1 <==> !AlreadyPassed(s, start, dest) && (BoardsAtOnce(s, start, dest) ==> s.onboard < s.capacity))
              && (!r.1 ==> r.0 == s)
    ensures r.1 && BoardsAtOnce(s, start, dest) ==>
              r.0 == BoardNow(s, dest).(dir := if dest > start then Up else Down)
    ensures r.1 && !BoardsAtOnce(s, start, dest) ==>
              r.0 == Enqueue(s, start, dest, if dest > start then Up else Down).(dir := r.0.dir)
    ensures r.1 && !BoardsAtOnce(s, start, dest) ==>
              r.0.dir == (if s.dir == Idle then (if start > s.floor then Up else Down) else s.dir)
  {
    if !InBuilding(s, start) || !InBuilding(s, dest) || start == dest then (s, false)
    else
      var reqDir := if dest > start then Up else Down;
      if s.dir == Up && reqDir == Up && start < s.floor then (s, false)
      else if s.dir == Down && reqDir == Down && start > s.floor then (s, false)
      else if s.dir == Idle then
        if start == s.floor then
          if s.onboard >= s.capacity then (s, false)
          else (BoardNow(s.(dir := reqDir), dest), true)
        else
          (Enqueue(s.(dir := if start > s.floor then Up else Down), start, dest, reqDir), true)
      else if reqDir == s.dir && start == s.floor then
        if s.onboard >= s.capacity then (s, false)
        else (BoardNow(s, dest), true)
      else (Enqueue(s, start, dest, reqDir), true)
  }

  // ---------------------------------------------------------------------------
  // Invariants
  // ---------------------------------------------------------------------------

  /** Queued riders: a queue grows by one when a rider is queued. */
  function Waiting(qs: seq<seq<int>>): nat {
    if qs == [] then 0 else Waiting(qs[..|qs| - 1]) + |qs[|qs| - 1]|
  }

  lemma {:induction false} WaitingAppend(qs: seq<seq<int>>, i: int, x: int)
    requires 0 <= i < |qs|
    ensures Waiting(qs[i := qs[i] + [x]]) == Waiting(qs) + 1
    decreases |qs|
  {
    var n := |qs| - 1;
    if i < n {
      assert qs[i := qs[i] + [x]][..n] == qs[..n][i := qs[i] + [x]];
      WaitingAppend(qs[..n], i, x);
    } else {
      assert qs[i := qs[i] + [x]][..n] == qs[..n];
    }
  }

  /** Everyone the lift has taken on and not yet delivered: aboard or waiting. */
  function Riders(s: Sim): nat {
    (if s.onboard >= 0 then s.onboard else 0) + Waiting(s.waitUp) + Waiting(s.waitDown)
  }

  /** An accepted request adds exactly one rider, aboard or waiting; a rejected one changes nothing. */
  lemma AddRequestCounts(s: Sim, start: int, dest: int)
    requires Valid(s)
    ensures var r := AddRequest(s, start, dest);
            if r.1 then Riders(r.0) == Riders(s) + 1 else r.0 == s
  {
    var r := AddRequest(s, start, dest);
    if r.1 && !BoardsAtOnce(s, start, dest) {
      if dest > start {
        WaitingAppend(s.waitUp, start, dest);
      } else {
        WaitingAppend(s.waitDown, start, dest);
      }
    }
  }

  /** Queueing a rider headed the right way keeps the queues well formed and changes nothing aboard. */
  lemma EnqueueOk(s: Sim, start: int, dest: int)
    requires WellFormed(s) && 0 <= start < s.floors && 0 <= dest < s.floors && start != dest
    ensures var r := Enqueue(s, start, dest, if dest > start then Up else Down);
            WellFormed(r) && r.onboard == s.onboard && r.drop == s.drop && r.floor == s.floor
  {
    var r := Enqueue(s, start, dest, if dest > start then Up else Down);
    assert forall f :: 0 <= f < s.floors && f != start ==> r.waitUp[f] == s.waitUp[f] && r.waitDown[f] == s.waitDown[f];
  }

  /** Requests keep the invariant: at most `capacity` aboard, `onboard` equal to the sum of `drop`, and queues headed the right way. */
  lemma AddRequestValid(s: Sim, start: int, dest: int)
    requires Valid(s)
    ensures Valid(AddRequest(s, start, dest).0)
  {
    if AddRequest(s, start, dest).1 {
      if BoardsAtOnce(s, start, dest) {
        assert Seated(AddRequest(s, start, dest).0);
      } else {
        EnqueueOk(s.(dir := AddRequest(s, start, dest).0.dir), start, dest);
      }
    }
  }

  /** Boarding at the current floor keeps riders seated and adds no drop at that floor. */
  lemma BoardHereSeated(s: Sim)
    requires WellFormed(s) && Seated(s)
    ensures Seated(BoardHere(s)) && BoardHere(s).drop[s.floor] == s.drop[s.floor]
  {
    BoardHereDrops(s);
    var q := Queue(s);
    var k := Boarding(s.capacity - s.onboard, |q|);
    assert s.floor !in multiset(q[..k]) by {
      forall j | 0 <= j < k ensures q[..k][j] != s.floor {
        assert q[..k][j] == q[j];
      }
    }
  }

  /** Arriving at a floor leaves everyone seated and nobody aboard headed for that floor. */
  lemma ArriveValid(s: Sim)
    requires WellFormed(s) && Seated(s)
    ensures Valid(Arrive(s))
  {
    var s0 := Move(s);
    SumAtLeast(s0.drop, s0.floor);
    var s3 := AlightHere(s0);
    assert Seated(s3);
    BoardHereSeated(s3);
    var s4 := BoardHere(s3);
    if !HasWorkAhead(s4, s4.dir) && Nearest(s4) != Idle {
      BoardHereSeated(s4.(dir := Nearest(s4)));
    }
  }

  /** Ticks keep the invariant. */
  lemma TickValid(s: Sim)
    requires Valid(s)
    ensures Valid(Tick(s))
  {
    if !(s.dir == Idle && !HasAnyWork(s)) && !(s.dir == Idle && Nearest(s) == Idle) {
      var s1 := if s.dir == Idle then s.(dir := Nearest(s)) else s;
      if !(!HasWorkAhead(s1, s1.dir) && Nearest(s1) == Idle) {
        var s2 := if !HasWorkAhead(s1, s1.dir) then s1.(dir := Nearest(s1)) else s1;
        ArriveValid(s2);
      }
    }
  }
}
