/**
 * The single-lift feasibility planner (q23_single_lift_system, LiftSystem.java).
 *
 * Requests going up (source <= destination) and going down are planned
 * independently. Each direction keeps its accepted riders and the set of
 * floors where it halts, which is exactly the riders' pickup and drop floors.
 * A request is accepted when, with its two floors added to the halts, no
 * rider passes more than `maxStops` halts strictly inside its trip and no
 * segment between adjacent floors carries more than `capacity` riders.
 */
module LiftPlanner {
  import opened Common

  datatype Rider = Rider(src: int, dst: int) {
    /** `Math.min(src, dst)`. */
    function Low(): int { if src < dst then src else dst }

    /** `Math.max(src, dst)`. */
    function High(): int { if src < dst then dst else src }
  }

  datatype Planner = Planner(stops: set<int>, riders: seq<Rider>)

  datatype Lift = Lift(floors: int, capacity: int, maxStops: int, up: Planner, down: Planner)

  datatype ConfigError = FloorsOutOfRange | CapacityOutOfRange | MaxStopsOutOfRange

  /** `new LiftSystem(floorsCount, liftCapacity, maxStops)`: the three range checks in order, then two empty planners. */
  function Create(floors: int, capacity: int, maxStops: int): (r: Result<Lift, ConfigError>)
    ensures r.Ok? <==> 2 <= floors <= 100 && 1 <= capacity <= 20 && 1 <= maxStops <= 10
    ensures !(2 <= floors <= 100) ==> r == Err(FloorsOutOfRange)
    ensures 2 <= floors <= 100 && !(1 <= capacity <= 20) ==> r == Err(CapacityOutOfRange)
    ensures r.Ok? ==> r.value == Lift(floors, capacity, maxStops, Planner({}, []), Planner({}, []))
  {
    if floors < 2 || floors > 100 then Err(FloorsOutOfRange)
    else if capacity < 1 || capacity > 20 then Err(CapacityOutOfRange)
    else if maxStops < 1 || maxStops > 10 then Err(MaxStopsOutOfRange)
    else Ok(Lift(floors, capacity, maxStops, Planner({}, []), Planner({}, [])))
  }

  // ---------------------------------------------------------------------------
  // The K-stop rule
  // ---------------------------------------------------------------------------

  /** `stops.subSet(low, false, high, false)`: the halts strictly inside (low, high). */
  function Interior(stops: set<int>, low: int, high: int): set<int> {
    set x | x in stops && low < x < high
  }

  /** `countInteriorStops`: the number of halts strictly between `low` and `high`. */
  function CountInterior(stops: set<int>, low: int, high: int): (n: nat)
    ensures n == |Interior(stops, low, high)|
  {
    if low >= high then
      assert Interior(stops, low, high) == {};
      0
    else |Interior(stops, low, high)|
  }

  /** More halts never mean fewer halts inside a trip. */
  lemma InteriorMonotone(stops: set<int>, more: set<int>, low: int, high: int)
    requires stops <= more
    ensures CountInterior(stops, low, high) <= CountInterior(more, low, high)
  {
    SubsetCard(Interior(stops, low, high), Interior(more, low, high));
  }

  lemma SubsetCard(a: set<int>, b: set<int>)
    requires a <= b
    ensures |a| <= |b|
  {
    assert b == a + (b - a);
  }

  /** Every rider passes at most `maxStops` halts strictly inside its trip. */
  predicate StopRule(riders: seq<Rider>, stops: set<int>, maxStops: int) {
    forall i :: 0 <= i < |riders| ==> CountInterior(stops, riders[i].Low(), riders[i].High()) <= maxStops
  }

  /** Loop 2) of `canAccept` over the existing riders. */
  function StopsOk(riders: seq<Rider>, stops: set<int>, maxStops: int): (ok: bool)
    ensures ok <==> StopRule(riders, stops, maxStops)
  {
    if riders == [] then true
    else if CountInterior(stops, riders[0].Low(), riders[0].High()) > maxStops then false
    else
      var ok := StopsOk(riders[1..], stops, maxStops);
      assert forall i :: 1 <= i < |riders| ==> riders[i] == riders[1..][i - 1];
      ok
  }

  // ---------------------------------------------------------------------------
  // The capacity rule
  // ---------------------------------------------------------------------------

  /** How many riders board at floor `g`. */
  function Starts(riders: seq<Rider>, g: int): nat {
    if riders == [] then 0
    else Starts(riders[..|riders| - 1], g) + (if riders[|riders| - 1].Low() == g then 1 else 0)
  }

  /** How many riders leave at floor `g`. */
  function Ends(riders: seq<Rider>, g: int): nat {
    if riders == [] then 0
    else Ends(riders[..|riders| - 1], g) + (if riders[|riders| - 1].High() == g then 1 else 0)
  }

  /** How many riders travel the segment from floor `f` to floor `f + 1`. */
  function Load(riders: seq<Rider>, f: int): nat {
    if riders == [] then 0
    else Load(riders[..|riders| - 1], f) + (if riders[|riders| - 1].Low() <= f < riders[|riders| - 1].High() then 1 else 0)
  }

  /** Every rider's floors are indexes of an array of `size` entries. */
  predicate Within(riders: seq<Rider>, size: int) {
    forall i :: 0 <= i < |riders| ==> 0 <= riders[i].Low() && riders[i].High() < size
  }

  /** The `diff` array of `canAccept`: +1 where each rider boards, -1 where it leaves. */
  function Diffs(riders: seq<Rider>, size: nat): (d: seq<int>)
    requires Within(riders, size)
    ensures |d| == size
    ensures forall g :: 0 <= g < size ==> d[g] == Starts(riders, g) - Ends(riders, g)
  {
    if riders == [] then seq(size, _ => 0)
    else
      var r := riders[|riders| - 1];
      var d := Diffs(riders[..|riders| - 1], size);
      var d1 := d[r.Low() := d[r.Low()] + 1];
      d1[r.High() := d1[r.High()] - 1]
  }

  /** The running sum of the sweep: the load of segment `f` is that of `f - 1` plus those boarding minus those leaving at `f`. */
  lemma {:induction false} LoadStep(riders: seq<Rider>, f: int)
    requires forall i :: 0 <= i < |riders| ==> riders[i].Low() >= 0
    requires f >= 0
    ensures Load(riders, f) == Load(riders, f - 1) + Starts(riders, f) - Ends(riders, f)
    ensures Load(riders, -1) == 0
    decreases |riders|
  {
    if riders != [] {
      var init := riders[..|riders| - 1];
      assert forall i :: 0 <= i < |init| ==> init[i] == riders[i];
      LoadStep(init, f);
    }
  }

  /** The sweep loop of `canAccept` from segment `f` on, with `active` riders so far. */
  function Sweep(d: seq<int>, f: nat, last: int, active: int, capacity: int): bool
    requires last <= |d|
    decreases last - f
  {
    if f >= last then true
    else if active + d[f] > capacity then false
    else Sweep(d, f + 1, last, active + d[f], capacity)
  }

  /** Segments `f` .. `last - 1` never carry more than `capacity` riders. */
  predicate LoadsFrom(riders: seq<Rider>, f: int, last: int, capacity: int) {
    forall g :: f <= g < last ==> Load(riders, g) <= capacity
  }

  /** The sweep's running sum is the segment load, so it passes exactly when no segment is over capacity. */
  lemma {:induction false} SweepIsLoad(riders: seq<Rider>, size: nat, f: nat, last: int, capacity: int)
    requires Within(riders, size) && last <= size
    ensures Sweep(Diffs(riders, size), f, last, Load(riders, f - 1), capacity) <==> LoadsFrom(riders, f, last, capacity)
    decreases last - f
  {
    if f < last {
      LoadStep(riders, f);
      SweepIsLoad(riders, size, f + 1, last, capacity);
    }
  }

  /** Every segment of a building with `floors` floors carries at most `capacity` riders. */
  predicate CapacityRule(riders: seq<Rider>, floors: int, capacity: int) {
    LoadsFrom(riders, 0, floors - 1, capacity)
  }

  // ---------------------------------------------------------------------------
  // Planner.canAccept / Planner.accept
  // ---------------------------------------------------------------------------

  /** `accept`: the rider joins and its two floors become halts. */
  function Accept(p: Planner, src: int, dst: int): (q: Planner)
    ensures q.riders == p.riders + [Rider(src, dst)]
    ensures q.stops == p.stops + {src, dst}
  {
    Planner(p.stops + {src, dst}, p.riders + [Rider(src, dst)])
  }

  /** Both rules hold for a planner. */
  predicate Feasible(p: Planner, floors: int, capacity: int, maxStops: int) {
    StopRule(p.riders, p.stops, maxStops) && CapacityRule(p.riders, floors, capacity)
  }

  /** The K-stop rule after accepting is the check over the old riders plus the check of the new one. */
  lemma AcceptStops(p: Planner, src: int, dst: int, maxStops: int)
    ensures StopRule(Accept(p, src, dst).riders, Accept(p, src, dst).stops, maxStops) <==>
            StopsOk(p.riders, p.stops + {src, dst}, maxStops) && CountInterior(p.stops + {src, dst}, Rider(src, dst).Low(), Rider(src, dst).High()) <= maxStops
  {
    var all := p.riders + [Rider(src, dst)];
    assert forall i :: 0 <= i < |p.riders| ==> all[i] == p.riders[i];
    assert all[|p.riders|] == Rider(src, dst);
  }

  /** The capacity rule after accepting is the sweep over the diff array that includes the new rider. */
  lemma AcceptCapacity(p: Planner, src: int, dst: int, floors: int, capacity: int)
    requires Within(p.riders, floors) && 0 <= src < floors && 0 <= dst < floors
    ensures Within(Accept(p, src, dst).riders, floors + 1)
    ensures CapacityRule(Accept(p, src, dst).riders, floors, capacity) <==>
            Sweep(Diffs(Accept(p, src, dst).riders, floors + 1), 0, floors - 1, 0, capacity)
  {
    var all := Accept(p, src, dst).riders;
    assert forall i :: 0 <= i < |p.riders| ==> all[i] == p.riders[i];
    LoadStep(all, 0);
    SweepIsLoad(all, floors + 1, 0, floors - 1, capacity);
  }

  /** `canAccept`: the K-stop checks with the proposed halts, then the capacity sweep. */
  function CanAccept(p: Planner, src: int, dst: int, floors: int, capacity: int, maxStops: int): (ok: bool)
    requires Within(p.riders, floors) && 0 <= src < floors && 0 <= dst < floors
    ensures ok <==> Feasible(Accept(p, src, dst), floors, capacity, maxStops)
  {
    var proposed := p.stops + {src, dst};
    var r := Rider(src, dst);
    AcceptStops(p, src, dst, maxStops);
    AcceptCapacity(p, src, dst, floors, capacity);
    if !StopsOk(p.riders, proposed, maxStops) then false
    else if CountInterior(proposed, r.Low(), r.High()) > maxStops then false
    else Sweep(Diffs(p.riders + [r], floors + 1), 0, floors - 1, 0, capacity)
  }

  // ---------------------------------------------------------------------------
  // requestPickup
  // ---------------------------------------------------------------------------

  /** The floors where a planner's riders board and leave. */
  function Endpoints(riders: seq<Rider>): set<int> {
    if riders == [] then {} else Endpoints(riders[..|riders| - 1]) + {riders[|riders| - 1].src, riders[|riders| - 1].dst}
  }

  /** A planner's riders travel between distinct floors of the building in its direction, and its halts are their floors. */
  ghost predicate PlannerOk(p: Planner, floors: int, up: bool) {
    && Within(p.riders, floors)
    && (forall i :: 0 <= i < |p.riders| ==> if up then p.riders[i].src < p.riders[i].dst else p.riders[i].src > p.riders[i].dst)
    && p.stops == Endpoints(p.riders)
  }

  /** A constructed lift: its parameters passed the range checks and each planner is feasible. */
  ghost predicate Valid(l: Lift) {
    && 2 <= l.floors <= 100 && 1 <= l.capacity <= 20 && 1 <= l.maxStops <= 10
    && PlannerOk(l.up, l.floors, true) && Feasible(l.up, l.floors, l.capacity, l.maxStops)
    && PlannerOk(l.down, l.floors, false) && Feasible(l.down, l.floors, l.capacity, l.maxStops)
  }

  lemma CreateValid(floors: int, capacity: int, maxStops: int)
    requires Create(floors, capacity, maxStops).Ok?
    ensures Valid(Create(floors, capacity, maxStops).value)
  {
  }

  predicate InBuilding(l: Lift, floor: int) {
    0 <= floor < l.floors
  }

  /**
   * `requestPickup`: false for a floor outside the building; true without a
   * change for a trip to the same floor; otherwise the UP planner for an
   * upward trip and the DOWN planner for a downward one accepts the rider
   * exactly when the plan with the rider added is still feasible.
   */
  function RequestPickup(l: Lift, source: int, destination: int): (r: (Lift, bool))
    requires Within(l.up.riders, l.floors) && Within(l.down.riders, l.floors)
    ensures !InBuilding(l, source) || !InBuilding(l, destination) ==> r == (l, false)
    ensures InBuilding(l, source) && source == destination ==> r == (l, true)
    ensures InBuilding(l, source) && InBuilding(l, destination) && source < destination ==>
              && (r.1 <==> Feasible(Accept(l.up, source, destination), l.floors, l.capacity, l.maxStops))
              && r.0 == if r.1 then l.(up := Accept(l.up, source, destination)) else l
    ensures InBuilding(l, source) && InBuilding(l, destination) && source > destination ==>
              && (r.1 <==> Feasible(Accept(l.down, source, destination), l.floors, l.capacity, l.maxStops))
              && r.0 == if r.1 then l.(down := Accept(l.down, source, destination)) else l
  {
    if !InBuilding(l, source) || !InBuilding(l, destination) then (l, false)
    else if source == destination then (l, true)
    else if source <= destination then
      if CanAccept(l.up, source, destination, l.floors, l.capacity, l.maxStops) then
        (l.(up := Accept(l.up, source, destination)), true)
      else (l, false)
    else
      if CanAccept(l.down, source, destination, l.floors, l.capacity, l.maxStops) then
        (l.(down := Accept(l.down, source, destination)), true)
      else (l, false)
  }

  /** Accepting a rider keeps the planner's halts equal to its riders' floors. */
  lemma AcceptOk(p: Planner, floors: int, up: bool, src: int, dst: int)
    requires PlannerOk(p, floors, up) && 0 <= src < floors && 0 <= dst < floors
    requires if up then src < dst else src > dst
    ensures PlannerOk(Accept(p, src, dst), floors, up)
  {
    var q := Accept(p, src, dst);
    assert q.riders[..|q.riders| - 1] == p.riders;
  }

  /** Requests keep the lift constructed-valid: both planners stay feasible. */
  lemma RequestValid(l: Lift, source: int, destination: int)
    requires Valid(l)
    ensures Valid(RequestPickup(l, source, destination).0)
  {
    if InBuilding(l, source) && InBuilding(l, destination) && source != destination {
      if RequestPickup(l, source, destination).1 {
        if source < destination {
          AcceptOk(l.up, l.floors, true, source, destination);
        } else {
          AcceptOk(l.down, l.floors, false, source, destination);
        }
      }
    }
  }

  /** On acceptance every rider of the chosen direction, the new one included, passes at most `maxStops` interior halts. */
  lemma AcceptedWithinStops(l: Lift, source: int, destination: int, i: int)
    requires Valid(l) && RequestPickup(l, source, destination).1 && source != destination
    ensures var p := if source < destination then RequestPickup(l, source, destination).0.up else RequestPickup(l, source, destination).0.down;
            0 <= i < |p.riders| ==> CountInterior(p.stops, p.riders[i].Low(), p.riders[i].High()) <= l.maxStops
  {
  }

  /** On acceptance no segment carries more than `capacity` riders of the chosen direction. */
  lemma AcceptedWithinCapacity(l: Lift, source: int, destination: int, f: int)
    requires Valid(l) && RequestPickup(l, source, destination).1 && source != destination && 0 <= f < l.floors - 1
    ensures var p := if source < destination then RequestPickup(l, source, destination).0.up else RequestPickup(l, source, destination).0.down;
            Load(p.riders, f) <= l.capacity
  {
  }

  /** The last rider's trip: a request that went through boards at its source and leaves at its destination. */
  lemma AcceptedRiderRecorded(l: Lift, source: int, destination: int)
    requires Valid(l) && RequestPickup(l, source, destination).1 && source != destination
    ensures var p := if source < destination then RequestPickup(l, source, destination).0.up else RequestPickup(l, source, destination).0.down;
            |p.riders| > 0 && p.riders[|p.riders| - 1] == Rider(source, destination) && source in p.stops && destination in p.stops
  {
  }
}
