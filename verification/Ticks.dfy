/** Time slots: conversion of times to ticks, and the grid of slots on which a task recurs. */
module Ticks {
  const TICK := 0.001

  /** Conversion to an integer discards the fraction. */
  function Trunc(x: real): int {
    if x >= 0.0 then x.Floor else -((-x).Floor)
  }

  function TickCount(time: real): int {
    Trunc(time / TICK)
  }

  function Frequency(interval: real): (f: int)
    ensures f >= 1
  {
    var ticks := TickCount(interval);
    if ticks > 1 then ticks else 1
  }

  /** The slot after `slot` in which a task is registered again. */
  function NextSlot(slot: int, frequency: int, nextCount: int): int
    requires frequency >= 1
  {
    if slot < nextCount then nextCount - 1 + frequency - (nextCount - 1 - slot) % frequency else slot
  }

  /** A whole number of periods. */
  function Periods(q: int, f: int): int {
    q * f
  }

  /** `slot` lies a whole number of periods after `first`. */
  ghost predicate OnGrid(first: int, f: int, slot: int) {
    exists q :: slot == first + Periods(q, f)
  }

  lemma PeriodsOrdered(q: int, r: int, f: int)
    requires f >= 1 && q <= r
    ensures Periods(q, f) <= Periods(r, f)
  {
  }

  lemma PeriodsAdd(q: int, r: int, f: int)
    ensures Periods(q, f) + Periods(r, f) == Periods(q + r, f)
  {
  }

  lemma OnGridTransitive(a: int, b: int, c: int, f: int)
    requires OnGrid(a, f, b) && OnGrid(b, f, c)
    ensures OnGrid(a, f, c)
  {
    var q :| b == a + Periods(q, f);
    var r :| c == b + Periods(r, f);
    PeriodsAdd(q, r, f);
    assert c == a + Periods(q + r, f);
  }

  /** After an overrun of any length, a task goes to the first slot on its own grid that is not past. */
  lemma NextSlotIsFirstOnGrid(slot: int, f: int, nextCount: int)
    requires f >= 1 && slot < nextCount
    ensures var next := NextSlot(slot, f, nextCount);
            && next >= nextCount && next > slot && OnGrid(slot, f, next)
            && forall x :: OnGrid(slot, f, x) && x >= nextCount ==> x >= next
  {
    var d := nextCount - 1 - slot;
    var next := NextSlot(slot, f, nextCount);
    PeriodsAdd(d / f, 1, f);
    assert next == slot + Periods(d / f + 1, f);
    forall x | OnGrid(slot, f, x) && x >= nextCount
      ensures x >= next
    {
      var q :| x == slot + Periods(q, f);
      if q <= d / f {
        PeriodsOrdered(q, d / f, f);
        assert false;
      }
      PeriodsOrdered(d / f + 1, q, f);
    }
  }

  /** In any case, it goes to the first slot on its grid that is neither past nor before the one it had. */
  lemma NextSlotOnGrid(slot: int, f: int, nextCount: int)
    requires f >= 1
    ensures var next := NextSlot(slot, f, nextCount);
            && next >= nextCount && next >= slot && OnGrid(slot, f, next)
            && forall x :: OnGrid(slot, f, x) && x >= nextCount && x >= slot ==> x >= next
  {
    if slot < nextCount {
      NextSlotIsFirstOnGrid(slot, f, nextCount);
    } else {
      assert slot == slot + Periods(0, f);
    }
  }

  /** A task recurs after as many whole ticks as its interval has, and after one if it has none. */
  lemma FrequencyIsWholeTicks(interval: real)
    ensures var f := Frequency(interval);
            if interval < TICK then f == 1 else f as real * TICK <= interval < (f + 1) as real * TICK
  {
    if interval >= TICK {
      assert interval / TICK >= 1.0;
    } else {
      assert interval / TICK < 1.0;
    }
  }
}
