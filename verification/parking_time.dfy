/**
 * Elapsed billable time between two instants (`getTotalParkingTime`).
 *
 * Instants are integer milliseconds.  The server counts one billable unit
 * ("hour") per 10 seconds, rounds the quotient with `Math.round` (nearest
 * integer, halves toward +infinity) and only then takes the absolute value.
 */
module ParkingTime {

  /** Milliseconds in one billable unit. */
  const UnitMs: int := 10000

  /** `Math.round(d / UnitMs)`: floor of the quotient shifted by half a unit. */
  function Round(d: int): (q: int)
    ensures UnitMs * q - UnitMs / 2 <= d < UnitMs * q + UnitMs / 2
  {
    (d + UnitMs / 2) / UnitMs
  }

  /**
   * Billable units from `parkTime` to `unParkTime`.  The result is the
   * absolute value of the rounded signed quotient: either the interval
   * rounds to +n units, or it rounds to -n units.
   */
  function Units(parkTime: int, unParkTime: int): (n: nat)
    ensures var d := unParkTime - parkTime;
            || (UnitMs * n - UnitMs / 2 <= d < UnitMs * n + UnitMs / 2)
            || (-UnitMs * n - UnitMs / 2 <= d < -UnitMs * n + UnitMs / 2)
  {
    var q := Round(unParkTime - parkTime);
    if q < 0 then -q else q
  }

  /** Rounding happens before the absolute value, so the count is not symmetric. */
  lemma RoundingBeforeAbs()
    ensures Units(0, 15000) == 2
    ensures Units(15000, 0) == 1
  {
  }

  /** Any interval shorter than half a unit, in either direction, bills nothing. */
  lemma ShortIntervalIsFree(parkTime: int, unParkTime: int)
    requires -UnitMs / 2 <= unParkTime - parkTime < UnitMs / 2
    ensures Units(parkTime, unParkTime) == 0
  {
  }
}
