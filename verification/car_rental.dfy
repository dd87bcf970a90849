/**
 * An in-memory car rental service (q21_car_rental, CarRentalService.java).
 *
 * Dates are whole day numbers. A booking holds a car for the inclusive day
 * range [from, till]; once its trip has ended the car is held through the
 * actual end day instead, so an early return frees the remaining days and a
 * late return blocks new bookings inside the extension. The cost charges
 * every day up to the later of the booked and the actual end, plus the
 * kilometres beyond the daily free allowance.
 */
module CarRental {
  import opened Common
  import Strings

  datatype Car = Car(plate: string, costPerDay: int, freeKmsPerDay: int, costPerKm: int)

  /** What `endTrip` records once: the actual end day, the final odometer and the cached cost. */
  datatype Closure = Closure(endDay: int, finalOdometer: int, cost: int)

  datatype Booking = Booking(orderId: string, plate: string, from: int, till: int,
                             startOdometer: Option<int>, closure: Option<Closure>)

  /** `cars`, `bookingsByOrder`, and `bookingsByCar` as the order ids of each car's bookings in booking order. */
  datatype Service = Service(cars: map<string, Car>, orders: map<string, Booking>, byCar: map<string, seq<string>>)

  function Empty(): Service {
    Service(map[], map[], map[])
  }

  /** `addCar`: a blank plate or a negative rate is ignored, and the first car added under a plate wins. */
  function AddCar(s: Service, plate: string, costPerDay: int, freeKmsPerDay: int, costPerKm: int): (r: Service)
    ensures r.orders == s.orders && r.byCar == s.byCar
    ensures Strings.IsBlank(plate) || costPerDay < 0 || freeKmsPerDay < 0 || costPerKm < 0 ==> r == s
    ensures plate in s.cars ==> r == s
    ensures plate in r.cars <==> plate in s.cars || (!Strings.IsBlank(plate) && costPerDay >= 0 && freeKmsPerDay >= 0 && costPerKm >= 0)
    ensures plate !in s.cars && plate in r.cars ==> r.cars == s.cars[plate := Car(plate, costPerDay, freeKmsPerDay, costPerKm)]
  {
    if Strings.IsBlank(plate) then s
    else if costPerDay < 0 || freeKmsPerDay < 0 || costPerKm < 0 then s
    else if plate in s.cars then s
    else s.(cars := s.cars[plate := Car(plate, costPerDay, freeKmsPerDay, costPerKm)])
  }

  // ---------------------------------------------------------------------------
  // Day ranges
  // ---------------------------------------------------------------------------

  /** Day `day` lies in the inclusive range [start, end]. */
  predicate Covers(start: int, end: int, day: int) {
    start <= day <= end
  }

  function Max(a: int, b: int): int {
    if a < b then b else a
  }

  function Min(a: int, b: int): int {
    if a < b then a else b
  }

  /**
   * `overlapsInclusive`: two inclusive ranges overlap when neither ends
   * before the other starts. Ranges that do not overlap share no day, and
   * two non-empty ranges that overlap share the later of their first days.
   */
  function Overlaps(aStart: int, aEnd: int, bStart: int, bEnd: int): (r: bool)
    ensures !r ==> forall d :: !(Covers(aStart, aEnd, d) && Covers(bStart, bEnd, d))
    ensures r && aStart <= aEnd && bStart <= bEnd ==>
              Covers(aStart, aEnd, Max(aStart, bStart)) && Covers(bStart, bEnd, Max(aStart, bStart))
  {
    !(aEnd < bStart) && !(bEnd < aStart)
  }

  /** Overlap does not depend on which range comes first. */
  lemma OverlapsSymmetric(aStart: int, aEnd: int, bStart: int, bEnd: int)
    ensures Overlaps(aStart, aEnd, bStart, bEnd) == Overlaps(bStart, bEnd, aStart, aEnd)
  {
  }

  /** Ending a range earlier can only remove overlaps. */
  lemma OverlapsShrink(aStart: int, aEnd: int, bStart: int, bEnd: int, bEnd': int)
    requires bEnd' <= bEnd
    ensures Overlaps(aStart, aEnd, bStart, bEnd') ==> Overlaps(aStart, aEnd, bStart, bEnd)
  {
  }

  /** `occupiedEndDate`: the actual end day once the trip has ended, else the booked last day. */
  function OccupiedEnd(b: Booking): (e: int)
    ensures b.closure.Some? ==> e == b.closure.value.endDay
    ensures b.closure.None? ==> e == b.till
  {
    if b.closure.Some? then b.closure.value.endDay else b.till
  }

  /**
   * The last day a booking holds for certain, whatever happens later: the
   * booked last day, or the actual end day if the trip ended early. A later
   * `endTrip` can move it earlier but never later.
   */
  function FirmEnd(b: Booking): (e: int)
    ensures e <= b.till && e <= OccupiedEnd(b)
    ensures e == b.till || e == OccupiedEnd(b)
  {
    Min(b.till, OccupiedEnd(b))
  }

  // ---------------------------------------------------------------------------
  // Booking
  // ---------------------------------------------------------------------------

  /** `bookingsByCar.getOrDefault(plate, emptyList())`. */
  function Listed(s: Service, plate: string): seq<string> {
    if plate in s.byCar then s.byCar[plate] else []
  }

  /** The booking `id` exists and its occupied range overlaps [from, till]. */
  predicate Hit(orders: map<string, Booking>, id: string, from: int, till: int) {
    id in orders && Overlaps(from, till, orders[id].from, OccupiedEnd(orders[id]))
  }

  /** The overlap scan of `bookCar`, over the listed bookings in order, stopping at the first overlap. */
  function Scan(orders: map<string, Booking>, ids: seq<string>, from: int, till: int): (r: bool)
    ensures r <==> exists i :: 0 <= i < |ids| && Hit(orders, ids[i], from, till)
  {
    if ids == [] then false
    else if Hit(orders, ids[0], from, till) then true
    else
      var rest := Scan(orders, ids[1..], from, till);
      assert forall i :: 1 <= i < |ids| ==> ids[i] == ids[1..][i - 1];
      rest
  }

  function NewBooking(orderId: string, plate: string, from: int, till: int): Booking {
    Booking(orderId, plate, from, till, None, None)
  }

  /** The checks `bookCar` makes before scanning the car's bookings. */
  predicate Admissible(s: Service, orderId: string, plate: string, from: int, till: int) {
    && !Strings.IsBlank(orderId)
    && !Strings.IsBlank(plate)
    && plate in s.cars
    && orderId !in s.orders
    && from <= till
  }

  /**
   * `bookCar`: false and no change for a blank order id or plate, an unknown
   * car, a reused order id, a range that ends before it starts, or an
   * overlap with the occupied range of one of the car's bookings; otherwise
   * the booking is recorded under its order id and appended to the car's list.
   */
  function BookCar(s: Service, orderId: string, plate: string, from: int, till: int): (r: (Service, bool))
    ensures !r.1 ==> r.0 == s
    ensures !Admissible(s, orderId, plate, from, till) ==> !r.1
    ensures r.1 <==> Admissible(s, orderId, plate, from, till) && !Scan(s.orders, Listed(s, plate), from, till)
    ensures r.1 ==>
              && r.0.cars == s.cars
              && r.0.orders == s.orders[orderId := NewBooking(orderId, plate, from, till)]
              && r.0.byCar == s.byCar[plate := Listed(s, plate) + [orderId]]
  {
    if Strings.IsBlank(orderId) || Strings.IsBlank(plate) then (s, false)
    else if plate !in s.cars || orderId in s.orders then (s, false)
    else if till < from then (s, false)
    else if Scan(s.orders, Listed(s, plate), from, till) then (s, false)
    else
      var b := NewBooking(orderId, plate, from, till);
      (Service(s.cars, s.orders[orderId := b], s.byCar[plate := Listed(s, plate) + [orderId]]), true)
  }

  /** `startTrip`: records the odometer reading on a known order; an unknown order changes nothing. */
  function StartTrip(s: Service, orderId: string, odometer: int): (r: Service)
    ensures orderId !in s.orders ==> r == s
    ensures r.cars == s.cars && r.byCar == s.byCar && r.orders.Keys == s.orders.Keys
    ensures forall id :: id in s.orders && id != orderId ==> r.orders[id] == s.orders[id]
    ensures orderId in s.orders ==> r.orders[orderId] == s.orders[orderId].(startOdometer := Some(odometer))
  {
    if orderId !in s.orders then s
    else s.(orders := s.orders[orderId := s.orders[orderId].(startOdometer := Some(odometer))])
  }

  // ---------------------------------------------------------------------------
  // Ending a trip
  // ---------------------------------------------------------------------------

  /** The charged days: from the first day through the later of the booked and the actual end, inclusive. */
  function DaysCharged(from: int, till: int, endDay: int): (days: int)
    ensures days >= till - from + 1 && days >= endDay - from + 1
    ensures days == till - from + 1 || days == endDay - from + 1
  {
    var effectiveEnd := if endDay > till then endDay else till;
    effectiveEnd - from + 1
  }

  /** The distance driven: never negative, and zero when no start reading was recorded. */
  function TripKms(startOdometer: Option<int>, finalOdometer: int): (kms: int)
    ensures kms >= 0
    ensures startOdometer.None? ==> kms == 0
    ensures startOdometer.Some? && finalOdometer >= startOdometer.value ==> kms == finalOdometer - startOdometer.value
    ensures startOdometer.Some? && finalOdometer < startOdometer.value ==> kms == 0
  {
    var start := if startOdometer.Some? then startOdometer.value else finalOdometer;
    Max(0, finalOdometer - start)
  }

  /** The price of a trip: every day at the daily rate, plus the kilometres beyond the free allowance. */
  function Cost(car: Car, days: int, kms: int): int {
    var freeAllowance := days * car.freeKmsPerDay;
    var extraKms := Max(0, kms - freeAllowance);
    days * car.costPerDay + extraKms * car.costPerKm
  }

  predicate RatesOk(car: Car) {
    car.costPerDay >= 0 && car.freeKmsPerDay >= 0 && car.costPerKm >= 0
  }

  /** A trip within the free allowance costs exactly the daily charge. */
  lemma CostWithinAllowance(car: Car, days: int, kms: int)
    requires kms <= days * car.freeKmsPerDay
    ensures Cost(car, days, kms) == days * car.costPerDay
  {
  }

  /** Beyond the allowance every extra kilometre costs the kilometre rate. */
  lemma CostBeyondAllowance(car: Car, days: int, kms: int)
    requires kms >= days * car.freeKmsPerDay
    ensures Cost(car, days, kms + 1) == Cost(car, days, kms) + car.costPerKm
  {
    var a := days * car.freeKmsPerDay;
    assert Max(0, kms + 1 - a) == Max(0, kms - a) + 1;
    assert (Max(0, kms - a) + 1) * car.costPerKm == Max(0, kms - a) * car.costPerKm + car.costPerKm;
  }

  /**
   * With non-negative rates the cost is at least the daily charge, at most
   * the daily charge plus every kilometre at the kilometre rate, and never
   * falls as the distance grows.
   */
  lemma CostBounds(car: Car, days: int, kms: int, kms': int)
    requires RatesOk(car) && days >= 0 && 0 <= kms <= kms'
    ensures days * car.costPerDay <= Cost(car, days, kms) <= days * car.costPerDay + kms * car.costPerKm
    ensures Cost(car, days, kms) <= Cost(car, days, kms')
  {
    var a := days * car.freeKmsPerDay;
    var e := Max(0, kms - a);
    var e' := Max(0, kms' - a);
    assert 0 <= a;
    assert 0 <= e <= kms && e <= e';
    assert e * car.costPerKm <= kms * car.costPerKm by {
      assert (kms - e) * car.costPerKm >= 0;
    }
    assert e * car.costPerKm <= e' * car.costPerKm by {
      assert (e' - e) * car.costPerKm >= 0;
    }
  }

  /** What the first `endTrip` of a booking charges. */
  function Charge(car: Car, b: Booking, finalOdometer: int, endDay: int): int {
    Cost(car, DaysCharged(b.from, b.till, endDay), TripKms(b.startOdometer, finalOdometer))
  }

  /** Every booking's car is known, which `bookCar` guarantees and nothing removes. */
  predicate CarsKnown(s: Service) {
    forall id :: id in s.orders ==> s.orders[id].plate in s.cars
  }

  /**
   * `endTrip`: -1 for an unknown order; the cached cost, with no change,
   * for a trip that has already ended; otherwise the charge, recorded
   * together with the actual end day and the final odometer.
   */
  function EndTrip(s: Service, orderId: string, finalOdometer: int, endDay: int): (r: (Service, int))
    requires CarsKnown(s)
    ensures orderId !in s.orders ==> r == (s, -1)
    ensures orderId in s.orders && s.orders[orderId].closure.Some? ==> r == (s, s.orders[orderId].closure.value.cost)
    ensures orderId in s.orders && s.orders[orderId].closure.None? ==>
              (var b := s.orders[orderId];
               && r.1 == Charge(s.cars[b.plate], b, finalOdometer, endDay)
               && r.0 == s.(orders := s.orders[orderId := b.(closure := Some(Closure(endDay, finalOdometer, r.1)))]))
  {
    if orderId !in s.orders then (s, -1)
    else
      var b := s.orders[orderId];
      if b.closure.Some? then (s, b.closure.value.cost)
      else
        var total := Charge(s.cars[b.plate], b, finalOdometer, endDay);
        (s.(orders := s.orders[orderId := b.(closure := Some(Closure(endDay, finalOdometer, total)))]), total)
  }

  /** A second `endTrip` of the same order returns the first one's cost and changes nothing, whatever its arguments. */
  lemma EndTripIdempotent(s: Service, orderId: string, odo1: int, end1: int, odo2: int, end2: int)
    requires CarsKnown(s)
    ensures CarsKnown(EndTrip(s, orderId, odo1, end1).0)
    ensures var (s1, c1) := EndTrip(s, orderId, odo1, end1);
            EndTrip(s1, orderId, odo2, end2) == (s1, c1)
  {
  }

  /** After an ended trip the car is held exactly through the actual end day: earlier than booked frees the rest, later extends the hold. */
  lemma EndTripMovesHold(s: Service, orderId: string, finalOdometer: int, endDay: int)
    requires CarsKnown(s) && orderId in s.orders && s.orders[orderId].closure.None?
    ensures var b := EndTrip(s, orderId, finalOdometer, endDay).0.orders[orderId];
            && OccupiedEnd(b) == endDay
            && (endDay < s.orders[orderId].till ==> FirmEnd(b) == endDay)
            && (endDay >= s.orders[orderId].till ==> FirmEnd(b) == s.orders[orderId].till)
  {
  }

  /** An early return still pays every booked day; a late one pays through the actual end. */
  lemma ChargedDays(b: Booking, endDay: int)
    ensures endDay <= b.till ==> DaysCharged(b.from, b.till, endDay) == b.till - b.from + 1
    ensures endDay > b.till ==> DaysCharged(b.from, b.till, endDay) == endDay - b.from + 1
  {
  }

  // ---------------------------------------------------------------------------
  // The service invariant
  // ---------------------------------------------------------------------------

  predicate CarsOk(s: Service) {
    forall p :: p in s.cars ==> s.cars[p].plate == p && !Strings.IsBlank(p) && RatesOk(s.cars[p])
  }

  predicate BookingOk(s: Service, id: string, b: Booking) {
    && b.orderId == id
    && !Strings.IsBlank(id)
    && b.plate in s.cars
    && b.from <= b.till
    && (b.closure.Some? ==> b.closure.value.cost >= 0)
  }

  predicate OrdersOk(s: Service) {
    forall id :: id in s.orders ==> BookingOk(s, id, s.orders[id])
  }

  /** `bookingsByCar` lists exactly the bookings of each car. */
  predicate Indexed(s: Service) {
    && (forall id :: id in s.orders ==> s.orders[id].plate in s.byCar && id in s.byCar[s.orders[id].plate])
    && (forall p, i :: p in s.byCar && 0 <= i < |s.byCar[p]| ==>
          s.byCar[p][i] in s.orders && s.orders[s.byCar[p][i]].plate == p)
  }

  /** Two bookings of one car never hold a common day for certain. */
  predicate Apart(a: Booking, b: Booking) {
    a.plate == b.plate ==> !Overlaps(a.from, FirmEnd(a), b.from, FirmEnd(b))
  }

  predicate Disjoint(s: Service) {
    forall x, y :: x in s.orders && y in s.orders && x != y ==> Apart(s.orders[x], s.orders[y])
  }

  predicate Valid(s: Service) {
    CarsOk(s) && OrdersOk(s) && Indexed(s) && Disjoint(s)
  }

  lemma ValidCarsKnown(s: Service)
    requires Valid(s)
    ensures CarsKnown(s)
  {
  }

  /** Some booking of the car has an occupied range overlapping [from, till]. */
  predicate Clashes(s: Service, plate: string, from: int, till: int) {
    exists id :: id in s.orders && s.orders[id].plate == plate && Hit(s.orders, id, from, till)
  }

  /** Scanning the car's list finds an overlap exactly when some booking of that car overlaps. */
  lemma ScanFindsClash(s: Service, plate: string, from: int, till: int)
    requires Indexed(s)
    ensures Scan(s.orders, Listed(s, plate), from, till) <==> Clashes(s, plate, from, till)
  {
    var ids := Listed(s, plate);
    if Clashes(s, plate, from, till) {
      var id :| id in s.orders && s.orders[id].plate == plate && Hit(s.orders, id, from, till);
      var i :| 0 <= i < |ids| && ids[i] == id;
      assert Hit(s.orders, ids[i], from, till);
    }
    if Scan(s.orders, ids, from, till) {
      var i :| 0 <= i < |ids| && Hit(s.orders, ids[i], from, till);
      assert s.orders[ids[i]].plate == plate;
    }
  }

  /** On a valid service a booking is accepted exactly when it passes the checks and no booking of the car overlaps it. */
  lemma BookCarAccepts(s: Service, orderId: string, plate: string, from: int, till: int)
    requires Valid(s)
    ensures BookCar(s, orderId, plate, from, till).1 <==>
              Admissible(s, orderId, plate, from, till) && !Clashes(s, plate, from, till)
  {
    ScanFindsClash(s, plate, from, till);
  }

  lemma EmptyValid()
    ensures Valid(Empty())
  {
  }

  lemma AddCarValid(s: Service, plate: string, costPerDay: int, freeKmsPerDay: int, costPerKm: int)
    requires Valid(s)
    ensures Valid(AddCar(s, plate, costPerDay, freeKmsPerDay, costPerKm))
  {
    var r := AddCar(s, plate, costPerDay, freeKmsPerDay, costPerKm);
    assert forall id :: id in r.orders ==> BookingOk(s, id, r.orders[id]) ==> BookingOk(r, id, r.orders[id]);
  }

  /** A new booking is apart from every booking of its car, since it clashes with none of their occupied ranges. */
  lemma NewBookingApart(s: Service, b: Booking, other: Booking)
    requires b.closure.None? && other.plate == b.plate
    requires !Overlaps(b.from, b.till, other.from, OccupiedEnd(other))
    ensures Apart(b, other) && Apart(other, b)
  {
    OverlapsShrink(b.from, b.till, other.from, OccupiedEnd(other), FirmEnd(other));
    OverlapsSymmetric(b.from, b.till, other.from, FirmEnd(other));
  }

  lemma BookCarDisjoint(s: Service, orderId: string, plate: string, from: int, till: int)
    requires Valid(s) && BookCar(s, orderId, plate, from, till).1
    ensures Disjoint(BookCar(s, orderId, plate, from, till).0)
  {
    var r := BookCar(s, orderId, plate, from, till).0;
    var b := NewBooking(orderId, plate, from, till);
    ScanFindsClash(s, plate, from, till);
    forall id | id in s.orders && s.orders[id].plate == plate
      ensures Apart(b, s.orders[id]) && Apart(s.orders[id], b)
    {
      assert !Hit(s.orders, id, from, till);
      NewBookingApart(s, b, s.orders[id]);
    }
    forall x, y | x in r.orders && y in r.orders && x != y
      ensures Apart(r.orders[x], r.orders[y])
    {
      if x != orderId && y != orderId {
        assert Apart(s.orders[x], s.orders[y]);
      }
    }
  }

  lemma BookCarValid(s: Service, orderId: string, plate: string, from: int, till: int)
    requires Valid(s)
    ensures Valid(BookCar(s, orderId, plate, from, till).0)
  {
    if BookCar(s, orderId, plate, from, till).1 {
      BookCarDisjoint(s, orderId, plate, from, till);
      var r := BookCar(s, orderId, plate, from, till).0;
      forall p, i | p in r.byCar && 0 <= i < |r.byCar[p]|
        ensures r.byCar[p][i] in r.orders && r.orders[r.byCar[p][i]].plate == p
      {
        if p == plate && i == |Listed(s, plate)| {
          assert r.byCar[p][i] == orderId;
        } else if p == plate {
          assert r.byCar[p][i] == Listed(s, plate)[i];
        }
      }
      forall id | id in r.orders
        ensures r.orders[id].plate in r.byCar && id in r.byCar[r.orders[id].plate]
      {
        if id == orderId {
          assert r.byCar[plate][|Listed(s, plate)|] == orderId;
        } else if s.orders[id].plate == plate {
          var i :| 0 <= i < |s.byCar[plate]| && s.byCar[plate][i] == id;
          assert r.byCar[plate][i] == id;
        }
      }
    }
  }

  /** A service that differs from a valid one only in recorded start readings is valid. */
  lemma SameDatesValid(s: Service, r: Service)
    requires Valid(s)
    requires r.cars == s.cars && r.byCar == s.byCar && r.orders.Keys == s.orders.Keys
    requires forall id :: id in s.orders ==> r.orders[id] == s.orders[id].(startOdometer := r.orders[id].startOdometer)
    ensures Valid(r)
  {
    forall id | id in r.orders
      ensures BookingOk(r, id, r.orders[id])
    {
      assert BookingOk(s, id, s.orders[id]);
    }
    forall x, y | x in r.orders && y in r.orders && x != y
      ensures Apart(r.orders[x], r.orders[y])
    {
      assert Apart(s.orders[x], s.orders[y]);
    }
  }

  lemma StartTripValid(s: Service, orderId: string, odometer: int)
    requires Valid(s)
    ensures Valid(StartTrip(s, orderId, odometer))
  {
    SameDatesValid(s, StartTrip(s, orderId, odometer));
  }

  /** The first charge of a trip on a car with non-negative rates is never negative. */
  lemma ChargeNonNegative(car: Car, b: Booking, finalOdometer: int, endDay: int)
    requires RatesOk(car) && b.from <= b.till
    ensures Charge(car, b, finalOdometer, endDay) >= 0
  {
    var days := DaysCharged(b.from, b.till, endDay);
    var kms := TripKms(b.startOdometer, finalOdometer);
    CostBounds(car, days, kms, kms);
    assert days * car.costPerDay >= 0;
  }

  /** Ending a trip only moves its firm end earlier, so bookings stay apart. */
  lemma EndTripValid(s: Service, orderId: string, finalOdometer: int, endDay: int)
    requires Valid(s)
    ensures CarsKnown(s) && Valid(EndTrip(s, orderId, finalOdometer, endDay).0)
  {
    if orderId in s.orders && s.orders[orderId].closure.None? {
      var r := EndTrip(s, orderId, finalOdometer, endDay).0;
      var b := s.orders[orderId];
      var b' := r.orders[orderId];
      ChargeNonNegative(s.cars[b.plate], b, finalOdometer, endDay);
      assert BookingOk(r, orderId, b');
      assert FirmEnd(b') <= FirmEnd(b);
      forall x, y | x in r.orders && y in r.orders && x != y
        ensures Apart(r.orders[x], r.orders[y])
      {
        assert Apart(s.orders[x], s.orders[y]);
        if x == orderId && b.plate == s.orders[y].plate {
          OverlapsSymmetric(b'.from, FirmEnd(b'), s.orders[y].from, FirmEnd(s.orders[y]));
          OverlapsShrink(s.orders[y].from, FirmEnd(s.orders[y]), b.from, FirmEnd(b), FirmEnd(b'));
          OverlapsSymmetric(b.from, FirmEnd(b), s.orders[y].from, FirmEnd(s.orders[y]));
        } else if y == orderId && b.plate == s.orders[x].plate {
          OverlapsShrink(s.orders[x].from, FirmEnd(s.orders[x]), b.from, FirmEnd(b), FirmEnd(b'));
        }
      }
    }
  }

  /**
   * No day is held for certain by two bookings of one car: bookings never
   * double-book a day, except for the days a late return takes beyond the
   * booked range, which the source allows to run into a later booking.
   */
  lemma NoDoubleBooking(s: Service, x: string, y: string, day: int)
    requires Valid(s) && x in s.orders && y in s.orders && x != y
    requires s.orders[x].plate == s.orders[y].plate
    ensures !(Covers(s.orders[x].from, FirmEnd(s.orders[x]), day) && Covers(s.orders[y].from, FirmEnd(s.orders[y]), day))
  {
    assert Apart(s.orders[x], s.orders[y]);
  }

  /** Bookings of one car whose trips have not ended share no booked day. */
  lemma OpenBookingsDisjoint(s: Service, x: string, y: string, day: int)
    requires Valid(s) && x in s.orders && y in s.orders && x != y
    requires s.orders[x].plate == s.orders[y].plate
    requires s.orders[x].closure.None? && s.orders[y].closure.None?
    ensures !(Covers(s.orders[x].from, s.orders[x].till, day) && Covers(s.orders[y].from, s.orders[y].till, day))
  {
    NoDoubleBooking(s, x, y, day);
  }
}
