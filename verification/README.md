# Parking lot engine — Dafny model

This project models the allocation-and-billing engine of a small parking-lot
server (`server.js`). The server takes a parking map, which is a list of entrances, each a
list of slots with a size class, a distance and an optional occupant. It parks
a car in the nearest empty slot the car fits and unparks it again, billing the stay. The model
covers four parts:

- `ParkingTime` (`parking_time.dfy`): `getTotalParkingTime`. It turns two instants
  into billable units of 10 seconds. The quotient is rounded with `Math.round`
  (halves go toward +infinity) before the absolute value is taken.
- `Fees` (`fees.dfy`): the fee loop of `POST /unpark`. `FeeStep` is one pass of
  the loop body. It includes the `switch` whose cases fall through. `Run` repeats
  the loop with a bound on the number of passes. `Fee` is the tiered closed form.
  `LoopFee` gives the outcome for any size, and is `None` when the loop never ends.
  `FeeLoop` is the loop as a method.
- `SlotFinder` (`slot_finder.dfy`): `getNearestSpace`. It is a left fold over the
  slots in scan order, with the `!nearestSpace.size` quirk kept.
- `Ledger` (`ledger.dfy`): the handlers `POST /map`, `POST /park` (first park and
  re-park) and `POST /unpark`. Each one is a pure function from the stored state and
  the request to a reply and a new stored state. The time `now` is a parameter.

Behaviour of the code worth knowing:

- Zero units cost 0: the loop body never runs.
- 26 units for a size-2 car cost 5000 + 2·100 = 5200. The flat 40 is only
  charged while nothing has been charged yet, so it never follows a full day.
- Re-park resets `parkTime` when the previous stay, from `parkTime` to
  `unParkTime`, was longer than one unit.
- Re-park saves the car as parked before it searches for a slot. So a failed
  re-park still changes the car list.
- `parkedAt` is set on first park only. Unpark leaves it in place, and
  `StaleParkedAtFreesOtherCar` shows the effect: an unpark clears another car's slot.
- A unit is a fixed 10 seconds.
- A negative car size is accepted. The fee loop then never ends once units remain
  after the full days and the flat tier.

## Model

| member | source | states |
|---|---|---|
| ParkingTime.Round | server.js:20 | `Math.round` of ms/10000 is the integer q with 10000q − 5000 ≤ d < 10000q + 5000, so halves round up |
| ParkingTime.Units | server.js:14-24 | the unit count is never negative, and the signed interval rounds to +n or to −n units |
| ParkingTime.RoundingBeforeAbs | server.js:20-21 | rounding comes before the absolute value: +1.5 units bill 2 and −1.5 units bill 1 |
| ParkingTime.ShortIntervalIsFree | server.js:20-21 | an interval shorter than half a unit, in either direction, rounds to 0 units |
| Fees.Switch | server.js:272-285 | despite the fall-through, sizes 0/1/2 add exactly one rate (20/60/100) times the remaining hours and zero them; any other size changes nothing |
| Fees.FeeStep | server.js:255-286 | one pass of the loop body never lowers the fee while hours remain; for sizes 0..2 it always consumes hours; for other sizes a pass below a day after something was charged changes nothing |
| Fees.Run | server.js:254-287 | running the loop for any number of passes never lowers the fee, keeps non-negative hours non-negative, and leaves hours only if some were there at the start |
| Fees.Fee | server.js:254-287 | the tiered fee is at least 40 for any positive stay, and lies between 5000 per full day and that plus 40 plus one rate times the remaining units |
| Fees.LoopFee | server.js:254-287 | the loop ends for sizes 0..2 and for stays of at most 3 units, and whenever it ends it charges at least 40 for a positive stay and at least 5000 per full day |
| Fees.LoopFeeIsLoop | server.js:254-287 | for every size the loop halts after n div 24 + 1 passes with the closed-form fee, or, when the closed form is None, hours remain after any number of passes |
| Fees.FeeLoop | server.js:246-287 | for sizes 0..2 the while loop terminates (hours decrease) and yields the tiered fee: 0; 40 for 1–3 units; 40 + r·(n−3) below a day; 5000·(n div 24) + r·(n mod 24) from a day on |
| Fees.FeeMonotone | server.js:254-287 | for sizes 0..2 more units never cost less |
| Fees.FeeExamples | server.js:254-287 | the loop as written gives 0 for 0 units, 40 for 2, 80 for 5 (size 0), and 5200 for 26 units of size 2 |
| SlotFinder.Consider | server.js:32-49 | one slot visit keeps the best or takes this slot only if it fits; nothing is held only when nothing was held and the slot does not fit; a strictly closer fitting slot always replaces the best; a best of non-zero size is only replaced by a strictly closer slot; a fitting slot always replaces a best of size 0, whatever its distance |
| SlotFinder.NearestSpace | server.js:26-55 | a returned slot lies in the map, is at least the car's size and has no car, and the result copies its size and distance; nothing is returned exactly when no slot in the map is eligible |
| SlotFinder.NearestNotBeatenLater | server.js:37-48 | no eligible slot later in scan order is closer than the choice, and a size-0 choice is always the last eligible slot |
| SlotFinder.NearestIsFirstMinimum | server.js:37-48 | if no eligible slot has size 0, the choice has minimum distance, and every eligible slot before it in scan order is strictly farther, so ties go to the first |
| SlotFinder.PositiveCarIsFirstMinimum | server.js:33-48 | a car of size 1 or more always gets a nearest eligible slot, and every eligible slot before it in scan order is strictly farther |
| SlotFinder.SizeZeroBestIsReplaced | server.js:37-41 | a size-0 best so far counts as "no best yet" and is overwritten by a farther candidate |
| Ledger.FindCar | server.js:117 | the lookup returns the first index whose car has the id, or none when no car has it |
| Ledger.Occupy | server.js:196 | writing a slot's `car` changes that field of that slot and nothing else in the map |
| Ledger.SetMap | server.js:63-77 | a missing map or one with fewer than 3 entrances is rejected with nothing changed; otherwise the map is stored and the car list becomes empty, which always gives a store satisfying the invariants (car i has id i, cars exist only under a map, every `parkedAt` is in the map, unParkTime is set exactly when unparked) |
| Ledger.FirstPark | server.js:160-197 | size > 2 fails and no eligible slot gives NoSlot, both with nothing changed; with size ≤ 2 and an eligible slot the park succeeds: exactly one car is appended with id = list length, status parked, parkTime now and `parkedAt` the slot the nearest-slot search picks, and only that slot gets the new id |
| Ledger.LongPreviousStay | server.js:131-135 | the billing interval restarts exactly when an unpark time is recorded and the previous stay is at least 15 s forward or more than 15 s backward, i.e. more than 1 unit |
| Ledger.Repark | server.js:112-156 | an unknown id gives NoCar and a parked car gives AlreadyParked, both with nothing changed; an unparked car becomes parked with unParkTime cleared and parkTime reset only after a stay over 1 unit, and this is saved even when NoSlot follows; on success only the new slot gets the id and `parkedAt` is kept |
| Ledger.Park | server.js:101-157 | a car list comes back exactly when a map is set and either the `carId` names an unparked car with an eligible slot, or there is no `carId` and a `car` of size ≤ 2 has an eligible slot; every outcome keeps the store invariants; a new car's id is the list length, and the invariant is what keeps each car's id equal to its index |
| Ledger.Unpark | server.js:210-296 | a missing id or map fails, an unknown id gives NoCar and an unparked car gives AlreadyUnparked, each with nothing changed; otherwise the car becomes unparked at now with `parkedAt` kept, only the slot at `parkedAt` is cleared, and the receipt carries the units from parkTime to now and, for sizes 0..2, the tiered fee; for any size the handler gives no reply exactly when the fee loop never ends, and otherwise the receipt's fee is what the loop computes |
| Ledger.UnparkKeepsWf | server.js:233-242 | unpark keeps the store invariants |
| Ledger.FindCarIsIndex | server.js:139 | on a well-formed store the car with id k sits at index k, so writing back at `cars[carData.id]` updates the car that was found |
| Ledger.UnparkOnWf | server.js:240-241 | on a well-formed store unpark fails only for a missing id or map, since `parkedAt` always lies in the map, and it always answers for sizes 0..2 |
| Ledger.ParkThenUnpark | server.js:233-287 | parking then unparking at the same instant bills 0 units and fee 0, restores the map exactly, and leaves the car listed as unparked |
| Ledger.StaleParkedAtFreesOtherCar | server.js:151 | re-park does not update `parkedAt`, so a later unpark empties a slot held by another parked car and leaves the re-parked slot marked as taken |

## Left out

- HTTP routing, body parsing, status codes, response texts, logging and `http.listen`. The reply is a datatype: Failed, NoCar, AlreadyParked, AlreadyUnparked, NoSlot, MapStored, CarList, Receipt, or NoReply when the request never completes.
- `GET /map`: it only reads the stored map back, so it has no engine logic.
- The `store` library and its JSON round trip. The store is an explicit `Store` value holding an optional map and the car list.
- `new Date()`: the clock is I/O, so `now` is passed in as integer milliseconds.
- ParkingTime.Units: floating-point division and date parsing are replaced by exact integer arithmetic on milliseconds. Precision effects of floats are not modelled.
- `typeof`, `Array.isArray` and `Number.isInteger` checks: these hold by construction for typed values. Only the checks with meaning on typed data remain: a missing map, car or id, fewer than 3 entrances, and size > 2. Undefined or fractional sizes and distances are not modelled.
- A status other than `parked` or `unparked`: the status type has only these two values. In the source such a car would fall through from re-park into first park.
- Fees.FeeLoop: it requires a size in 0..2, because only for those sizes does the source loop terminate for every number of units. For other sizes it halts only for at most 3 units or a whole number of days. For every other size, `LoopFee` and `LoopFeeIsLoop` describe the behaviour, including non-termination.
- Ledger.Repark and Ledger.Unpark: the source writes the car back at `cars[carData.id]`, while the model writes at the index `Array.find` returned. `FindCarIsIndex` shows the two are the same on every well-formed store. Out-of-range array growth is not modelled.
- Ledger.Unpark: a `NoReply` outcome is terminal in the running program, because the endless loop blocks the server's single event loop and no later request is answered. The model returns the saved store and lets later transitions continue from it.
- Concurrency between requests: the source has no protection, and interleaving is not part of the logic.
