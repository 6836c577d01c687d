/**
 * The request handlers `POST /map`, `POST /park` and `POST /unpark` as
 * transitions of the stored state.
 *
 * The key-value store holds the parking map (absent until a map is posted)
 * and the list of cars.  Each handler reads both, decides, writes back, and
 * answers; `now` stands for `new Date()` in integer milliseconds.
 */
module Ledger {
  import opened Wrappers
  import opened SlotFinder
  import ParkingTime
  import Fees

  datatype Status = Parked | Unparked

  /** The `car` object of a first park request. */
  datatype CarSpec = CarSpec(name: string, size: int)

  /**
   * A car record.  `parkedAt` is the slot found on first park; nothing
   * updates or clears it afterwards.
   */
  datatype Car = Car(id: nat, name: string, size: int, status: Status,
                     parkTime: int, unParkTime: Option<int>, parkedAt: Space)

  /** The stored keys `map` and `cars`. */
  datatype Store = Store(parkingMap: Option<ParkingMap>, cars: seq<Car>)

  /** What a handler answers. */
  datatype Reply =
    | Failed                   // the handler threw: status 400
    | NoCar                    // 'no car found'
    | AlreadyParked            // 'car already parked'
    | AlreadyUnparked          // 'car already unparked'
    | NoSlot                   // 'no available slots'
    | MapStored(parkingMap: ParkingMap)
    | CarList(cars: seq<Car>)
    | Receipt(car: Car, totalHours: nat, fees: nat)
    | NoReply                  // the fee loop never ends, so nothing is sent

  datatype Response = Response(reply: Reply, store: Store)

  /** `cars.find(car => car.id === id)`, as an index. */
  function FindCar(cars: seq<Car>, id: int): (r: Option<nat>)
    ensures r.Some? ==> r.value < |cars| && cars[r.value].id == id
                        && forall j :: 0 <= j < r.value ==> cars[j].id != id
    ensures r.None? ==> forall j :: 0 <= j < |cars| ==> cars[j].id != id
    decreases |cars|
  {
    if |cars| == 0 then None
    else if cars[0].id == id then Some(0)
    else match FindCar(cars[1..], id)
      case None => None
      case Some(j) => Some(j + 1)
  }

  predicate SameShape(m: ParkingMap, m': ParkingMap)
  {
    |m| == |m'| && forall i :: 0 <= i < |m| ==> |m[i]| == |m'[i]|
  }

  /** `m'` is `m` with only the `car` of slot (e, s) set to `v`. */
  ghost predicate OnlyCarAt(m: ParkingMap, m': ParkingMap, e: int, s: int, v: Option<int>)
  {
    && SameShape(m, m')
    && InMap(m, e, s)
    && m'[e][s] == m[e][s].(car := v)
    && forall i, y :: InMap(m, i, y) && (i != e || y != s) ==> m'[i][y] == m[i][y]
  }

  /** `map[entrance][slot].car = v`. */
  function Occupy(m: ParkingMap, sp: Space, v: Option<int>): (m': ParkingMap)
    requires InMap(m, sp.entrance, sp.slot)
    ensures OnlyCarAt(m, m', sp.entrance, sp.slot, v)
  {
    m[sp.entrance := m[sp.entrance][sp.slot := m[sp.entrance][sp.slot].(car := v)]]
  }

  /**
   * `POST /map`: a map of at least 3 entrances replaces the old one and
   * empties the car list; an accepted map always yields a well-formed store,
   * and a rejected one leaves the store as it was.
   */
  function SetMap(st: Store, m: Option<ParkingMap>): (r: Response)
    ensures m.None? || |m.value| < 3 ==> r == Response(Failed, st)
    ensures m.Some? && |m.value| >= 3 ==> r.reply == MapStored(m.value) && r.store == Store(m, [])
    ensures Wf(st) || r.reply.MapStored? ==> Wf(r.store)
  {
    if m.None? || |m.value| < 3 then Response(Failed, st)
    else Response(MapStored(m.value), Store(m, []))
  }

  /** First park of a new car (`car` in the request body, no `carId`). */
  function FirstPark(st: Store, spec: CarSpec, now: int): (r: Response)
    requires st.parkingMap.Some?
    ensures r == Response(Failed, st) || r == Response(NoSlot, st) || r.reply.CarList?
    ensures spec.size > 2 ==> r == Response(Failed, st)
    ensures (spec.size <= 2 && forall i, y :: !IsCandidate(st.parkingMap.value, spec.size, i, y))
              ==> r == Response(NoSlot, st)
    ensures r.reply.CarList? ==>
              && spec.size <= 2
              && r.reply == CarList(r.store.cars)
              && |r.store.cars| == |st.cars| + 1
              && r.store.cars[..|st.cars|] == st.cars
              && var c := r.store.cars[|st.cars|];
                 && c == Car(|st.cars|, spec.name, spec.size, Parked, now, None, c.parkedAt)
                 && IsCandidate(st.parkingMap.value, spec.size, c.parkedAt.entrance, c.parkedAt.slot)
                 && r.store.parkingMap.Some?
                 && OnlyCarAt(st.parkingMap.value, r.store.parkingMap.value, c.parkedAt.entrance, c.parkedAt.slot, Some(c.id))
    ensures (spec.size <= 2 && NearestSpace(st.parkingMap.value, spec.size).Some?)
              ==> && r.reply.CarList?
                  && r.store.cars[|st.cars|].parkedAt == NearestSpace(st.parkingMap.value, spec.size).value
  {
    var m := st.parkingMap.value;
    if spec.size > 2 then Response(Failed, st)
    else
      match NearestSpace(m, spec.size)
      case None => Response(NoSlot, st)
      case Some(sp) =>
        var id := |st.cars|;
        var cars' := st.cars + [Car(id, spec.name, spec.size, Parked, now, None, sp)];
        Response(CarList(cars'), Store(Some(Occupy(m, sp, Some(id))), cars'))
  }

  /**
   * Whether re-parking restarts the billing interval: the stay that ended at
   * the last unpark lasted more than one unit.  A missing `unParkTime` parses
   * to an invalid date, and NaN is never greater than 1.
   */
  function LongPreviousStay(c: Car): (long: bool)
    ensures long <==> c.unParkTime.Some? && (c.unParkTime.value - c.parkTime >= 15000
                                             || c.unParkTime.value - c.parkTime < -15000)
  {
    c.unParkTime.Some? && ParkingTime.Units(c.parkTime, c.unParkTime.value) > 1
  }

  /** Re-park of a known car (`carId` in the request body). */
  function Repark(st: Store, id: int, now: int): (r: Response)
    requires st.parkingMap.Some?
    ensures (forall j :: 0 <= j < |st.cars| ==> st.cars[j].id != id) <==> r == Response(NoCar, st)
    ensures FindCar(st.cars, id).Some? ==>
              var k := FindCar(st.cars, id).value;
              var c := st.cars[k];
              && (c.status.Parked? ==> r == Response(AlreadyParked, st))
              && (c.status.Unparked? ==>
                    && |r.store.cars| == |st.cars|
                    && var c' := r.store.cars[k];
                       && r.store.cars == st.cars[k := c']
                       && c' == c.(status := Parked, unParkTime := None, parkTime := c'.parkTime)
                       && (LongPreviousStay(c) ==> c'.parkTime == now)
                       && (!LongPreviousStay(c) ==> c'.parkTime == c.parkTime)
                       && ((forall i, y :: !IsCandidate(st.parkingMap.value, c.size, i, y)) <==> r.reply == NoSlot)
                       && (r.reply == NoSlot ==> r.store.parkingMap == st.parkingMap)
                       && (r.reply != NoSlot ==>
                             && r.reply == CarList(r.store.cars)
                             && NearestSpace(st.parkingMap.value, c.size).Some?
                             && var sp := NearestSpace(st.parkingMap.value, c.size).value;
                                && IsCandidate(st.parkingMap.value, c.size, sp.entrance, sp.slot)
                                && r.store.parkingMap.Some?
                                && OnlyCarAt(st.parkingMap.value, r.store.parkingMap.value, sp.entrance, sp.slot, Some(c.id))))
  {
    var m := st.parkingMap.value;
    match FindCar(st.cars, id)
    case None => Response(NoCar, st)
    case Some(k) =>
      var c := st.cars[k];
      if c.status.Parked? then Response(AlreadyParked, st)
      else
        var c' := c.(status := Parked,
                     parkTime := if LongPreviousStay(c) then now else c.parkTime,
                     unParkTime := None);
        var cars' := st.cars[k := c'];
        match NearestSpace(m, c.size)
        case None => Response(NoSlot, Store(st.parkingMap, cars'))
        case Some(sp) =>
          Response(CarList(cars'), Store(Some(Occupy(m, sp, Some(c.id))), cars'))
  }

  /**
   * `POST /park`: a `carId` selects re-park, otherwise `car` describes a new
   * car.  A car list comes back exactly when a map is set and either the id
   * names an unparked car for which a slot is eligible, or there is no id and
   * a new car of size at most 2 has an eligible slot.  Every outcome keeps a
   * well-formed store well-formed.
   */
  function Park(st: Store, car: Option<CarSpec>, carId: Option<int>, now: int): (r: Response)
    ensures r.reply.CarList? <==>
              && st.parkingMap.Some?
              && if carId.Some? then
                   && FindCar(st.cars, carId.value).Some?
                   && var c := st.cars[FindCar(st.cars, carId.value).value];
                      && c.status.Unparked?
                      && exists i, y :: IsCandidate(st.parkingMap.value, c.size, i, y)
                 else
                   && car.Some?
                   && car.value.size <= 2
                   && exists i, y :: IsCandidate(st.parkingMap.value, car.value.size, i, y)
    ensures Wf(st) ==> Wf(r.store)
    ensures st.parkingMap.None? ==> r == Response(Failed, st)
    ensures st.parkingMap.Some? && carId.Some? ==> r == Repark(st, carId.value, now)
    ensures st.parkingMap.Some? && carId.None? && car.None? ==> r == Response(Failed, st)
    ensures st.parkingMap.Some? && carId.None? && car.Some? ==> r == FirstPark(st, car.value, now)
  {
    if st.parkingMap.None? then Response(Failed, st)
    else if carId.Some? then Repark(st, carId.value, now)
    else if car.None? then Response(Failed, st)
    else FirstPark(st, car.value, now)
  }

  /**
   * `POST /unpark`.  The car is saved as unparked before the slot at its
   * stored `parkedAt` is cleared; if that coordinate is not in the map the
   * handler throws with the car list already saved.
   */
  function Unpark(st: Store, carId: Option<int>, now: int): (r: Response)
    ensures carId.None? || st.parkingMap.None? ==> r == Response(Failed, st)
    ensures (carId.Some? && st.parkingMap.Some? && forall j :: 0 <= j < |st.cars| ==> st.cars[j].id != carId.value)
              ==> r == Response(NoCar, st)
    ensures carId.Some? && st.parkingMap.Some? && FindCar(st.cars, carId.value).Some? ==>
              var k := FindCar(st.cars, carId.value).value;
              var c := st.cars[k];
              var c' := c.(status := Unparked, unParkTime := Some(now));
              var m := st.parkingMap.value;
              var p := c.parkedAt;
              && (c.status.Unparked? ==> r == Response(AlreadyUnparked, st))
              && (c.status.Parked? ==>
                    && r.store.cars == st.cars[k := c']
                    && (!InMap(m, p.entrance, p.slot) ==> r.reply == Failed && r.store.parkingMap == st.parkingMap)
                    && (InMap(m, p.entrance, p.slot) ==>
                          && r.store.parkingMap.Some?
                          && OnlyCarAt(m, r.store.parkingMap.value, p.entrance, p.slot, None)
                          && var n := ParkingTime.Units(c.parkTime, now);
                             && (r.reply.Receipt? || r.reply == NoReply)
                             && (r.reply.Receipt? ==> r.reply.car == c' && r.reply.totalHours == n)
                             && (r.reply == NoReply <==> Fees.LoopFee(n, c.size).None?)
                             && (r.reply.Receipt? ==> r.reply.fees == Fees.LoopFee(n, c.size).value)
                             && (0 <= c.size <= 2 ==> r.reply == Receipt(c', n, Fees.Fee(n, c.size)))))
  {
    if carId.None? || st.parkingMap.None? then Response(Failed, st)
    else match FindCar(st.cars, carId.value)
      case None => Response(NoCar, st)
      case Some(k) =>
        var c := st.cars[k];
        if c.status.Unparked? then Response(AlreadyUnparked, st)
        else
          var c' := c.(status := Unparked, unParkTime := Some(now));
          var cars' := st.cars[k := c'];
          var m := st.parkingMap.value;
          var p := c.parkedAt;
          if !InMap(m, p.entrance, p.slot) then Response(Failed, Store(st.parkingMap, cars'))
          else
            var st' := Store(Some(Occupy(m, p, None)), cars');
            var n := ParkingTime.Units(c.parkTime, now);
            match Fees.LoopFee(n, c.size)
            case None => Response(NoReply, st')
            case Some(fee) => Response(Receipt(c', n, fee), st')
  }

  // Invariants of every store the handlers produce.

  /**
   * Car `i` has id `i`; cars exist only under a map; every `parkedAt` lies in
   * the map; a car has an `unParkTime` exactly when it is unparked.
   */
  ghost predicate Wf(st: Store)
  {
    && (forall i :: 0 <= i < |st.cars| ==> st.cars[i].id == i)
    && (|st.cars| > 0 ==> st.parkingMap.Some?)
    && (st.parkingMap.Some? ==> forall i :: 0 <= i < |st.cars| ==>
          InMap(st.parkingMap.value, st.cars[i].parkedAt.entrance, st.cars[i].parkedAt.slot))
    && (forall i :: 0 <= i < |st.cars| ==> (st.cars[i].status.Unparked? <==> st.cars[i].unParkTime.Some?))
  }

  /** On a well-formed store `cars.find` by id lands on index `id`, so writing back at `cars[carData.id]` hits the found car. */
  lemma FindCarIsIndex(st: Store, id: int)
    requires Wf(st)
    ensures FindCar(st.cars, id) == (if 0 <= id < |st.cars| then Some(id) else None)
  {
    if 0 <= id < |st.cars| {
      assert st.cars[id].id == id;
    }
  }

  lemma UnparkKeepsWf(st: Store, carId: Option<int>, now: int)
    requires Wf(st)
    ensures Wf(Unpark(st, carId, now).store)
  {
  }

  /**
   * On a well-formed store unpark only fails for a missing `carId` or map,
   * and it answers a receipt whenever the car's size is one the fee loop knows.
   */
  lemma UnparkOnWf(st: Store, carId: Option<int>, now: int)
    requires Wf(st)
    ensures var r := Unpark(st, carId, now);
            && (r.reply == Failed ==> carId.None? || st.parkingMap.None?)
            && (r.reply == NoReply ==> !(0 <= st.cars[carId.value].size <= 2))
  {
  }

  /**
   * Parking a new car and unparking it at the same instant bills 0 units and
   * 0 fee, restores the map exactly, and leaves the car in the list as unparked.
   */
  lemma ParkThenUnpark(st: Store, spec: CarSpec, now: int)
    requires Wf(st)
    requires Park(st, Some(spec), None, now).reply.CarList?
    ensures var s1 := Park(st, Some(spec), None, now).store;
            var r2 := Unpark(s1, Some(|st.cars|), now);
            var c := s1.cars[|st.cars|];
            && r2.reply == Receipt(c.(status := Unparked, unParkTime := Some(now)), 0, 0)
            && r2.store.parkingMap == st.parkingMap
            && r2.store.cars == st.cars + [c.(status := Unparked, unParkTime := Some(now))]
  {
    var s1 := Park(st, Some(spec), None, now).store;
    var m := st.parkingMap.value;
    var c := s1.cars[|st.cars|];
    FindCarIsIndex(s1, |st.cars|);
    var r2 := Unpark(s1, Some(|st.cars|), now);
    var e, y := c.parkedAt.entrance, c.parkedAt.slot;
    assert c.parkTime == now && c.status == Parked;
    assert ParkingTime.Units(now, now) == 0;
    assert Fees.LoopFee(0, c.size) == Some(0);
    assert r2.reply == Receipt(c.(status := Unparked, unParkTime := Some(now)), 0, 0);
    assert OnlyCarAt(m, s1.parkingMap.value, e, y, Some(c.id));
    assert OnlyCarAt(s1.parkingMap.value, r2.store.parkingMap.value, e, y, None);
    var m2 := r2.store.parkingMap.value;
    assert m2[e][y] == m[e][y];
    assert forall i :: 0 <= i < |m| ==> m2[i] == m[i];
    assert m2 == m;
    assert r2.store.cars == (st.cars + [c])[|st.cars| := c.(status := Unparked, unParkTime := Some(now))];
  }

  // A five-request trace on a three-entrance map with two slots at entrance 0.

  const TraceMap: ParkingMap := [[Slot(1, 1, None), Slot(1, 2, None)], [], []]
  const First: Space := Space(0, 0, 1, 1)
  const Second: Space := Space(0, 1, 1, 2)
  const CarA: Car := Car(0, "a", 1, Parked, 0, None, First)
  const CarB: Car := Car(1, "b", 1, Parked, 0, None, First)

  function WithCars(a: Option<int>, b: Option<int>): ParkingMap
  {
    [[Slot(1, 1, a), Slot(1, 2, b)], [], []]
  }

  lemma TraceFirstParkA()
    ensures Park(Store(Some(TraceMap), []), Some(CarSpec("a", 1)), None, 0).store
            == Store(Some(WithCars(Some(0), None)), [CarA])
  {
    assert ScanEntrances(TraceMap, 1, 1) == Some(First);
    assert ScanEntrances(TraceMap, 1, 2) == Some(First);
    assert Occupy(TraceMap, First, Some(0))[0] == WithCars(Some(0), None)[0];
    assert Occupy(TraceMap, First, Some(0)) == WithCars(Some(0), None);
    assert [] + [CarA] == [CarA];
  }

  lemma TraceUnparkA()
    ensures Unpark(Store(Some(WithCars(Some(0), None)), [CarA]), Some(0), 0).store
            == Store(Some(TraceMap), [CarA.(status := Unparked, unParkTime := Some(0))])
  {
    var st := Store(Some(WithCars(Some(0), None)), [CarA]);
    assert FindCar(st.cars, 0) == Some(0);
    assert InMap(WithCars(Some(0), None), 0, 0);
    assert Occupy(WithCars(Some(0), None), First, None)[0] == TraceMap[0];
    assert Occupy(WithCars(Some(0), None), First, None) == TraceMap;
    assert [CarA][0 := CarA.(status := Unparked, unParkTime := Some(0))] == [CarA.(status := Unparked, unParkTime := Some(0))];
  }

  lemma TraceFirstParkB()
    ensures Park(Store(Some(TraceMap), [CarA.(status := Unparked, unParkTime := Some(0))]), Some(CarSpec("b", 1)), None, 0).store
            == Store(Some(WithCars(Some(1), None)), [CarA.(status := Unparked, unParkTime := Some(0)), CarB])
  {
    assert ScanEntrances(TraceMap, 1, 1) == Some(First);
    assert ScanEntrances(TraceMap, 1, 2) == Some(First);
    assert Occupy(TraceMap, First, Some(1))[0] == WithCars(Some(1), None)[0];
    assert Occupy(TraceMap, First, Some(1)) == WithCars(Some(1), None);
  }

  lemma TraceReparkA()
    ensures Park(Store(Some(WithCars(Some(1), None)), [CarA.(status := Unparked, unParkTime := Some(0)), CarB]), None, Some(0), 0).store
            == Store(Some(WithCars(Some(1), Some(0))), [CarA, CarB])
  {
    var m := WithCars(Some(1), None);
    assert ScanEntrances(m, 1, 1) == Some(Second);
    assert ScanEntrances(m, 1, 2) == Some(Second);
    var cars := [CarA.(status := Unparked, unParkTime := Some(0)), CarB];
    assert FindCar(cars, 0) == Some(0);
    assert ParkingTime.Units(0, 0) == 0;
    assert Occupy(m, Second, Some(0))[0] == WithCars(Some(1), Some(0))[0];
    assert Occupy(m, Second, Some(0)) == WithCars(Some(1), Some(0));
    assert cars[0 := CarA] == [CarA, CarB];
  }

  lemma TraceUnparkAAgain()
    ensures Unpark(Store(Some(WithCars(Some(1), Some(0))), [CarA, CarB]), Some(0), 0).store
            == Store(Some(WithCars(None, Some(0))), [CarA.(status := Unparked, unParkTime := Some(0)), CarB])
  {
    assert FindCar([CarA, CarB], 0) == Some(0);
    assert Occupy(WithCars(Some(1), Some(0)), First, None)[0] == WithCars(None, Some(0))[0];
    assert Occupy(WithCars(Some(1), Some(0)), First, None) == WithCars(None, Some(0));
    assert [CarA, CarB][0 := CarA.(status := Unparked, unParkTime := Some(0))]
           == [CarA.(status := Unparked, unParkTime := Some(0)), CarB];
  }

  /**
   * Re-park never moves `parkedAt`, so a later unpark clears the slot the car
   * first had even when another parked car now holds it: park a, unpark a,
   * park b (into a's old slot), re-park a (into the other slot), unpark a.
   * Car b is then parked in a slot marked empty, and unparked car a still
   * occupies its second slot.
   */
  lemma StaleParkedAtFreesOtherCar()
    ensures var s0 := SetMap(Store(None, []), Some(TraceMap)).store;
            var s1 := Park(s0, Some(CarSpec("a", 1)), None, 0).store;
            var s2 := Unpark(s1, Some(0), 0).store;
            var s3 := Park(s2, Some(CarSpec("b", 1)), None, 0).store;
            var s4 := Park(s3, None, Some(0), 0).store;
            var s5 := Unpark(s4, Some(0), 0).store;
            && s5.cars[1].status == Parked
            && s5.cars[1].parkedAt == First
            && s5.parkingMap.value[0][0].car == None
            && s5.cars[0].status == Unparked
            && s5.parkingMap.value[0][1].car == Some(0)
  {
    TraceFirstParkA();
    TraceUnparkA();
    TraceFirstParkB();
    TraceReparkA();
    TraceUnparkAAgain();
  }
}
