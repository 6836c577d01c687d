/**
 * The nearest-slot search (`getNearestSpace`).
 *
 * A parking map is a sequence of entrances, each a sequence of slots.  The
 * search visits entrance 0 slot 0, entrance 0 slot 1, ... and keeps a best
 * candidate: the first candidate found, replaced by a later one only when it
 * is strictly closer.  The "no best yet" test is `!nearestSpace.size`, which
 * is also true when the best slot so far has size 0, so a size-0 best is
 * replaced by the next candidate whatever its distance.
 */
module SlotFinder {
  import opened Wrappers

  /** A slot: its size class, its distance from the entrance, and the id of the car in it. */
  datatype Slot = Slot(size: int, distance: int, car: Option<int>)

  type ParkingMap = seq<seq<Slot>>

  /** The `nearestSpace` object: coordinates plus a copy of the slot's size and distance. */
  datatype Space = Space(entrance: nat, slot: nat, size: int, distance: int)

  /** A car of size `carSize` may take slot `s`: large enough and empty. */
  predicate Fits(carSize: int, s: Slot)
  {
    carSize <= s.size && s.car.None?
  }

  predicate InMap(m: ParkingMap, i: int, y: int)
  {
    0 <= i < |m| && 0 <= y < |m[i]|
  }

  predicate IsCandidate(m: ParkingMap, carSize: int, i: int, y: int)
  {
    InMap(m, i, y) && Fits(carSize, m[i][y])
  }

  /** Scan order: entrance first, then slot. */
  predicate Before(i: int, y: int, i2: int, y2: int)
  {
    i < i2 || (i == i2 && y < y2)
  }

  /** The part of the map already visited: entrances before `e` and the first `n` slots of `e`. */
  predicate Visited(i: int, y: int, e: int, n: int)
  {
    i < e || (i == e && y < n)
  }

  function SpaceAt(m: ParkingMap, i: nat, y: nat): Space
    requires InMap(m, i, y)
  {
    Space(i, y, m[i][y].size, m[i][y].distance)
  }

  /**
   * The loop body for slot `y` of entrance `i`: keep the best so far or take
   * this slot.  A fitting slot is taken when there is no best yet, when it is
   * strictly closer, or when the best has size 0; otherwise the best stays.
   */
  function Consider(best: Option<Space>, carSize: int, i: nat, y: nat, s: Slot): (r: Option<Space>)
    ensures r == best || (Fits(carSize, s) && r == Some(Space(i, y, s.size, s.distance)))
    ensures r.None? <==> best.None? && !Fits(carSize, s)
    ensures (Fits(carSize, s) && best.Some? && s.distance < best.value.distance)
              ==> r == Some(Space(i, y, s.size, s.distance))
    ensures best.Some? && best.value.size != 0 && r != best ==> r.value.distance < best.value.distance
    ensures (Fits(carSize, s) && best.Some? && best.value.size == 0)
              ==> r == Some(Space(i, y, s.size, s.distance))
  {
    if !Fits(carSize, s) then best
    else if best.None? || best.value.size == 0 then Some(Space(i, y, s.size, s.distance))
    else if s.distance < best.value.distance then Some(Space(i, y, s.size, s.distance))
    else best
  }

  /** The inner loop over the first `n` slots of entrance `e`, starting from `best`. */
  function ScanSlots(m: ParkingMap, carSize: int, e: nat, n: nat, best: Option<Space>): Option<Space>
    requires e < |m| && n <= |m[e]|
    decreases n
  {
    if n == 0 then best
    else Consider(ScanSlots(m, carSize, e, n - 1, best), carSize, e, n - 1, m[e][n - 1])
  }

  /** The outer loop over the first `k` entrances. */
  function ScanEntrances(m: ParkingMap, carSize: int, k: nat): Option<Space>
    requires k <= |m|
    decreases k
  {
    if k == 0 then None
    else ScanSlots(m, carSize, k - 1, |m[k - 1]|, ScanEntrances(m, carSize, k - 1))
  }

  // What the best-so-far knows about the visited part of the map.

  ghost predicate NoneIffEmpty(m: ParkingMap, carSize: int, best: Option<Space>, e: int, n: int)
  {
    best.None? <==> forall i, y :: IsCandidate(m, carSize, i, y) ==> !Visited(i, y, e, n)
  }

  ghost predicate BestIsCandidate(m: ParkingMap, carSize: int, best: Option<Space>, e: int, n: int)
  {
    best.Some? ==>
      var b := best.value;
      IsCandidate(m, carSize, b.entrance, b.slot) && Visited(b.entrance, b.slot, e, n)
      && b == SpaceAt(m, b.entrance, b.slot)
  }

  /** No visited candidate after the best is closer, and none follows a size-0 best. */
  ghost predicate NotBeatenLater(m: ParkingMap, carSize: int, best: Option<Space>, e: int, n: int)
  {
    best.Some? ==>
      var b := best.value;
      forall i, y :: IsCandidate(m, carSize, i, y) && Visited(i, y, e, n) && Before(b.entrance, b.slot, i, y)
        ==> b.size != 0 && b.distance <= m[i][y].distance
  }

  ghost predicate NoSizeZeroVisited(m: ParkingMap, carSize: int, e: int, n: int)
  {
    forall i, y :: IsCandidate(m, carSize, i, y) && Visited(i, y, e, n) ==> m[i][y].size != 0
  }

  /** Without size-0 candidates, every visited candidate before the best is strictly farther. */
  ghost predicate StrictlyBeatsEarlier(m: ParkingMap, carSize: int, best: Option<Space>, e: int, n: int)
  {
    best.Some? && NoSizeZeroVisited(m, carSize, e, n) ==>
      var b := best.value;
      forall i, y :: IsCandidate(m, carSize, i, y) && Visited(i, y, e, n) && Before(i, y, b.entrance, b.slot)
        ==> b.distance < m[i][y].distance
  }

  ghost predicate Summarises(m: ParkingMap, carSize: int, best: Option<Space>, e: int, n: int)
  {
    && NoneIffEmpty(m, carSize, best, e, n)
    && BestIsCandidate(m, carSize, best, e, n)
    && NotBeatenLater(m, carSize, best, e, n)
    && StrictlyBeatsEarlier(m, carSize, best, e, n)
  }

  /** Visiting one more slot keeps the summary. */
  lemma ConsiderStep(m: ParkingMap, carSize: int, best: Option<Space>, e: nat, n: nat)
    requires e < |m| && n < |m[e]|
    requires Summarises(m, carSize, best, e, n)
    ensures Summarises(m, carSize, Consider(best, carSize, e, n, m[e][n]), e, n + 1)
  {
    var r := Consider(best, carSize, e, n, m[e][n]);
    if !Fits(carSize, m[e][n]) {
      assert forall i, y :: IsCandidate(m, carSize, i, y) && Visited(i, y, e, n + 1) ==> Visited(i, y, e, n);
      if r.Some? {
        assert NoSizeZeroVisited(m, carSize, e, n + 1) ==> NoSizeZeroVisited(m, carSize, e, n);
      }
    } else {
      assert IsCandidate(m, carSize, e, n);
      if r != best {
        assert r == Some(SpaceAt(m, e, n));
        if best.Some? && best.value.size != 0 {
          assert NoSizeZeroVisited(m, carSize, e, n + 1) ==> NoSizeZeroVisited(m, carSize, e, n);
        }
      } else {
        assert best.Some? && best.value.size != 0 && m[e][n].distance >= best.value.distance;
        assert NoSizeZeroVisited(m, carSize, e, n + 1) ==> NoSizeZeroVisited(m, carSize, e, n);
      }
    }
  }

  lemma {:induction false} ScanSlotsSummarises(m: ParkingMap, carSize: int, e: nat, n: nat, best: Option<Space>)
    requires e < |m| && n <= |m[e]|
    requires Summarises(m, carSize, best, e, 0)
    ensures Summarises(m, carSize, ScanSlots(m, carSize, e, n, best), e, n)
    decreases n
  {
    if n > 0 {
      ScanSlotsSummarises(m, carSize, e, n - 1, best);
      ConsiderStep(m, carSize, ScanSlots(m, carSize, e, n - 1, best), e, n - 1);
    }
  }

  /** Having visited all of entrance `e` is having visited everything before `e + 1`. */
  lemma NextEntrance(m: ParkingMap, carSize: int, best: Option<Space>, e: nat)
    requires e < |m|
    requires Summarises(m, carSize, best, e, |m[e]|)
    ensures Summarises(m, carSize, best, e + 1, 0)
  {
  }

  lemma {:induction false} ScanEntrancesSummarises(m: ParkingMap, carSize: int, k: nat)
    requires k <= |m|
    ensures Summarises(m, carSize, ScanEntrances(m, carSize, k), k, 0)
    decreases k
  {
    if k > 0 {
      var prev := ScanEntrances(m, carSize, k - 1);
      ScanEntrancesSummarises(m, carSize, k - 1);
      ScanSlotsSummarises(m, carSize, k - 1, |m[k - 1]|, prev);
      NextEntrance(m, carSize, ScanSlots(m, carSize, k - 1, |m[k - 1]|, prev), k - 1);
    }
  }

  /**
   * `getNearestSpace(map, car)`; `None` is the object whose `entrance` is
   * undefined.  A returned slot is in the map, fits and is empty, and its
   * size and distance are copied; nothing is returned exactly when no slot
   * of the map is eligible.
   */
  function NearestSpace(m: ParkingMap, carSize: int): (r: Option<Space>)
    ensures r.Some? ==> IsCandidate(m, carSize, r.value.entrance, r.value.slot)
                        && r.value == SpaceAt(m, r.value.entrance, r.value.slot)
    ensures r.None? <==> forall i, y :: !IsCandidate(m, carSize, i, y)
  {
    ScanEntrancesSummarises(m, carSize, |m|);
    ScanEntrances(m, carSize, |m|)
  }

  lemma NearestSummarises(m: ParkingMap, carSize: int)
    ensures Summarises(m, carSize, NearestSpace(m, carSize), |m|, 0)
    ensures forall i, y :: IsCandidate(m, carSize, i, y) ==> Visited(i, y, |m|, 0)
  {
    ScanEntrancesSummarises(m, carSize, |m|);
  }

  /**
   * Whatever the sizes, no candidate later in scan order is closer than the
   * chosen slot, and a size-0 choice is always the last candidate of the map.
   */
  lemma NearestNotBeatenLater(m: ParkingMap, carSize: int)
    ensures var r := NearestSpace(m, carSize);
            r.Some? ==>
              forall i, y :: IsCandidate(m, carSize, i, y) && Before(r.value.entrance, r.value.slot, i, y)
                ==> r.value.size != 0 && r.value.distance <= m[i][y].distance
  {
    NearestSummarises(m, carSize);
  }

  /**
   * When no candidate has size 0 the choice is a nearest candidate, and the
   * first of the nearest ones in scan order.
   */
  lemma NearestIsFirstMinimum(m: ParkingMap, carSize: int)
    requires forall i, y :: IsCandidate(m, carSize, i, y) ==> m[i][y].size != 0
    ensures var r := NearestSpace(m, carSize);
            r.Some? ==>
              && (forall i, y :: IsCandidate(m, carSize, i, y) ==> r.value.distance <= m[i][y].distance)
              && (forall i, y :: IsCandidate(m, carSize, i, y) && Before(i, y, r.value.entrance, r.value.slot)
                    ==> r.value.distance < m[i][y].distance)
  {
    NearestSummarises(m, carSize);
    var r := NearestSpace(m, carSize);
    if r.Some? {
      assert NoSizeZeroVisited(m, carSize, |m|, 0);
      forall i, y | IsCandidate(m, carSize, i, y)
        ensures r.value.distance <= m[i][y].distance
      {
        if Before(i, y, r.value.entrance, r.value.slot) {
        } else if (i, y) != (r.value.entrance, r.value.slot) {
          assert Before(r.value.entrance, r.value.slot, i, y);
        }
      }
    }
  }

  /**
   * A car of size 1 or more only ever sees candidates of size 1 or more, so
   * it gets a nearest candidate, the first of them in scan order.
   */
  lemma PositiveCarIsFirstMinimum(m: ParkingMap, carSize: int)
    requires carSize >= 1
    ensures var r := NearestSpace(m, carSize);
            r.Some? ==>
              && (forall i, y :: IsCandidate(m, carSize, i, y) ==> r.value.distance <= m[i][y].distance)
              && (forall i, y :: IsCandidate(m, carSize, i, y) && Before(i, y, r.value.entrance, r.value.slot)
                    ==> r.value.distance < m[i][y].distance)
  {
    NearestIsFirstMinimum(m, carSize);
  }

  /** A size-0 best is overwritten by the next candidate even when that one is farther away. */
  lemma SizeZeroBestIsReplaced()
    ensures NearestSpace([[Slot(0, 1, None), Slot(1, 9, None)]], 0) == Some(Space(0, 1, 1, 9))
  {
  }
}
