/**
 * The fee loop of `POST /unpark`.
 *
 * The server keeps two variables, `fees` and `calculatedHours`, and repeats
 * one loop body while hours remain: a full 24-unit day costs 5000; otherwise
 * a flat 40 is charged (and up to 3 units consumed) if nothing has been
 * charged yet, and a `switch` on the car size charges the rest.  The switch
 * has no `break`, but every case zeroes the hours, so only the first matching
 * rate contributes; a size outside 0..2 matches no case and the loop spins.
 */
module Fees {
  import opened Wrappers

  /** The loop variables `fees` and `calculatedHours`. */
  datatype Tally = Tally(fees: int, hours: int)

  /** Hourly rate of a size class after the flat tier. */
  function Rate(size: int): nat
    requires 0 <= size <= 2
  {
    if size == 0 then 20 else if size == 1 then 60 else 100
  }

  /**
   * The `switch (carData.size)` with its fall-through: entering at case k runs
   * every later case too.  Only the entered case sees non-zero hours.
   */
  function Switch(t: Tally, size: int): (r: Tally)
    ensures 0 <= size <= 2 ==> r == Tally(t.fees + Rate(size) * t.hours, 0)
    ensures !(0 <= size <= 2) ==> r == t
  {
    var a := if size == 0 then Tally(t.fees + 20 * t.hours, 0) else t;
    var b := if size == 0 || size == 1 then Tally(a.fees + 60 * a.hours, 0) else a;
    if size == 0 || size == 1 || size == 2 then Tally(b.fees + 100 * b.hours, 0) else b
  }

  /**
   * One pass of the loop body.  With hours left it never lowers the fee; for
   * sizes 0..2 it always consumes hours, while for any other size a pass
   * below a day with something already charged changes nothing.
   */
  function FeeStep(t: Tally, size: int): (r: Tally)
    ensures t.hours > 0 ==> t.fees <= r.fees && 0 <= r.hours
    ensures t.hours > 0 && 0 <= size <= 2 ==> r.hours < t.hours
    ensures (0 < t.hours < 24 && t.fees != 0 && !(0 <= size <= 2)) ==> r == t
  {
    if t.hours >= 24 then
      Tally(t.fees + 5000, t.hours - 24)
    else
      var flat := if t.fees == 0 then Tally(t.fees + 40, if t.hours <= 3 then 0 else t.hours - 3) else t;
      Switch(flat, size)
  }

  /**
   * The loop `while (calculatedHours > 0)`, run for at most `fuel` passes.
   * The fee only grows, and hours that start non-negative stay so.
   */
  function Run(t: Tally, size: int, fuel: nat): (r: Tally)
    ensures t.fees <= r.fees
    ensures t.hours >= 0 ==> r.hours >= 0
    ensures r.hours > 0 ==> t.hours > 0
    decreases fuel
  {
    if fuel == 0 || t.hours <= 0 then t else Run(FeeStep(t, size), size, fuel - 1)
  }

  /**
   * The fee for `n` units in tiers: nothing for 0 units, the flat 40 for up
   * to 3, the flat 40 plus the size's rate beyond 3 for less than a day, and
   * 5000 per full day plus the rate for the remainder (no flat fee) after that.
   */
  function Fee(n: nat, size: int): (r: nat)
    requires 0 <= size <= 2
    ensures n > 0 ==> r >= 40
    ensures 5000 * (n / 24) <= r <= 5000 * (n / 24) + 40 + Rate(size) * (n % 24)
  {
    if n == 0 then 0
    else if n <= 3 then 40
    else if n < 24 then 40 + Rate(size) * (n - 3)
    else 5000 * (n / 24) + Rate(size) * (n % 24)
  }

  /**
   * What the loop produces for any size: `None` when it never terminates,
   * which for a size outside 0..2 happens whenever units are left after the
   * full days and the flat tier.
   */
  function LoopFee(n: nat, size: int): (r: Option<nat>)
    ensures 0 <= size <= 2 || n <= 3 ==> r.Some?
    ensures r.Some? && n > 0 ==> r.value >= 40
    ensures r.Some? ==> r.value >= 5000 * (n / 24)
  {
    if 0 <= size <= 2 then Some(Fee(n, size))
    else if n <= 3 then Some(if n == 0 then 0 else 40)
    else if n >= 24 && n % 24 == 0 then Some(5000 * (n / 24))
    else None
  }

  lemma DivMod24(q: nat, r: nat)
    requires r < 24
    ensures (24 * q + r) / 24 == q && (24 * q + r) % 24 == r
  {
  }

  /** Full days are consumed one pass each, before anything else. */
  lemma {:induction false} RunDays(f: int, k: nat, h: int, size: int, fuel: nat)
    requires h >= 0
    ensures fuel >= k ==> Run(Tally(f, 24 * k + h), size, fuel) == Run(Tally(f + 5000 * k, h), size, fuel - k)
    ensures fuel < k ==> Run(Tally(f, 24 * k + h), size, fuel).hours >= 24
    decreases k
  {
    if k > 0 && fuel > 0 {
      assert FeeStep(Tally(f, 24 * k + h), size) == Tally(f + 5000, 24 * (k - 1) + h);
      RunDays(f + 5000, k - 1, h, size, fuel - 1);
    }
  }

  /** A pass that changes nothing repeats forever. */
  lemma {:induction false} Stuck(t: Tally, size: int, fuel: nat)
    requires FeeStep(t, size) == t
    ensures Run(t, size, fuel) == t
    decreases fuel
  {
    if fuel > 0 && t.hours > 0 {
      Stuck(t, size, fuel - 1);
    }
  }

  /**
   * The loop agrees with `LoopFee`: when it is `Some(f)` the loop halts after
   * `n / 24 + 1` passes with fee `f`; when it is `None` hours remain after any
   * number of passes.
   */
  lemma {:induction false} LoopFeeIsLoop(n: nat, size: int)
    ensures LoopFee(n, size).Some? ==> Run(Tally(0, n), size, n / 24 + 1) == Tally(LoopFee(n, size).value, 0)
    ensures LoopFee(n, size).None? ==> forall fuel: nat :: Run(Tally(0, n), size, fuel).hours > 0
  {
    var k, h := n / 24, n % 24;
    assert n == 24 * k + h;
    RunDays(0, k, h, size, k + 1);
    var t := Tally(5000 * k, h);
    assert Run(Tally(0, n), size, k + 1) == Run(t, size, 1);
    if h == 0 {
      assert Run(t, size, 1) == t;
      if n > 0 {
        assert n >= 24;
        DivMod24(k, 0);
      }
    } else {
      var t1 := FeeStep(t, size);
      assert Run(t, size, 1) == t1;
      if k == 0 {
        assert t1 == Switch(Tally(40, if h <= 3 then 0 else h - 3), size);
      } else {
        assert t1 == Switch(t, size);
      }
      if LoopFee(n, size).None? {
        assert t1.hours > 0 && FeeStep(t1, size) == t1;
        forall fuel: nat
          ensures Run(Tally(0, n), size, fuel).hours > 0
        {
          RunDays(0, k, h, size, fuel);
          if fuel > k {
            assert Run(t, size, fuel - k) == Run(t1, size, fuel - k - 1);
            Stuck(t1, size, fuel - k - 1);
          }
        }
      }
    }
  }

  /**
   * The fee loop as a method.  Only for the sizes the switch knows does it
   * halt for every number of units, and then it charges the tiered fee.
   */
  method FeeLoop(n: nat, size: int) returns (fees: nat)
    requires 0 <= size <= 2
    ensures fees == Fee(n, size)
    ensures LoopFee(n, size) == Some(fees)
  {
    var t := Tally(0, n);
    ghost var days: nat := 0;
    while t.hours > 0
      invariant t.hours >= 0
      invariant t.hours > 0 ==> t.fees == 5000 * days && t.hours == n - 24 * days
      invariant t.hours == 0 ==> t.fees == Fee(n, size)
      decreases t.hours
    {
      if t.hours >= 24 {
        days := days + 1;
        if t.hours == 24 {
          DivMod24(days, 0);
        }
      } else {
        DivMod24(days, t.hours);
      }
      t := FeeStep(t, size);
    }
    fees := t.fees;
  }

  /** The fee is non-decreasing in the number of units. */
  lemma FeeMonotone(m: nat, n: nat, size: int)
    requires 0 <= size <= 2
    requires m <= n
    ensures Fee(m, size) <= Fee(n, size)
  {
  }

  /** Worked cases of the loop as written. */
  lemma FeeExamples()
    ensures Run(Tally(0, 0), 0, 1) == Tally(0, 0)
    ensures Run(Tally(0, 2), 0, 1) == Tally(40, 0)
    ensures Run(Tally(0, 5), 0, 1) == Tally(80, 0)
    ensures Run(Tally(0, 26), 2, 2) == Tally(5200, 0)
  {
  }
}
