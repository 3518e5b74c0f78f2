/** When the first invocation of a task falls that is aligned to a multiple of its interval. */
module Alignment {
  import opened Ticks

  /** Whether a task is aligned, and if so to which offset of local or universal time. */
  datatype Alignment = Unaligned | AlignedTo(zone: real)

  function Scaled(m: real, a: real): real {
    m * a
  }

  /** Python's remainder on floats, which takes the sign of the divisor. */
  function Mod(x: real, m: real): real
    requires m != 0.0
  {
    x - Scaled(m, (x / m).Floor as real)
  }

  function AlignmentOffset(interval: real, zone: real, timestamp: real): int
    requires interval != 0.0
  {
    Trunc(timestamp - Mod(timestamp - zone, interval))
  }

  /** A number of whole seconds. */
  predicate Whole(x: real) {
    x == x.Floor as real
  }

  /** The start of the `k`th interval. */
  function Boundary(interval: real, zone: real, k: int): real {
    zone + Scaled(interval, k as real)
  }

  lemma ScaledOrder(m: real, a: real, b: real)
    requires m > 0.0
    ensures a < b <==> Scaled(m, a) < Scaled(m, b)
  {
  }

  lemma ScaledNext(m: real, a: real)
    ensures Scaled(m, a + 1.0) == Scaled(m, a) + m
  {
  }

  lemma FloorQuotient(x: real, m: real, k: int)
    requires m > 0.0
    ensures (x / m).Floor == k <==> Scaled(m, k as real) <= x < Scaled(m, k as real) + m
  {
    var q := x / m;
    ScaledOrder(m, q, k as real);
    ScaledOrder(m, q, k as real + 1.0);
    ScaledNext(m, k as real);
  }

  /** The offset is the start of the interval that the time falls in, less any fraction of a second. */
  lemma OffsetIsTruncatedBoundary(interval: real, zone: real, t: real)
    requires interval > 0.0
    ensures var k := ((t - zone) / interval).Floor;
            && AlignmentOffset(interval, zone, t) == Trunc(Boundary(interval, zone, k))
            && Boundary(interval, zone, k) <= t < Boundary(interval, zone, k) + interval
  {
    FloorQuotient(t - zone, interval, ((t - zone) / interval).Floor);
  }

  lemma IntegerIsWhole(n: int, x: real)
    requires x == n as real
    ensures Whole(x) && x.Floor == n
  {
    assert (n as real).Floor == n;
  }

  lemma TruncWhole(x: real)
    requires Whole(x)
    ensures Trunc(x) as real == x
  {
    if x < 0.0 {
      IntegerIsWhole(-x.Floor, -x);
    }
  }

  lemma WholeSum(a: real, b: real)
    requires Whole(a) && Whole(b)
    ensures Whole(a + b)
  {
    IntegerIsWhole(a.Floor + b.Floor, a + b);
  }

  lemma WholeDifference(a: real, b: real)
    requires Whole(a) && Whole(b)
    ensures Whole(a - b)
  {
    IntegerIsWhole(a.Floor - b.Floor, a - b);
  }

  lemma WholeProduct(n: real, k: int)
    requires Whole(n)
    ensures Whole(Scaled(n, k as real))
  {
    IntegerIsWhole(n.Floor * k, Scaled(n, k as real));
  }

  /** With whole seconds throughout, the next boundary is in the future. */
  lemma WholeIntervalsAlignAhead(interval: real, zone: real, t: real)
    requires interval > 0.0 && Whole(interval) && Whole(zone)
    ensures AlignmentOffset(interval, zone, t) as real + interval > t
  {
    var k := ((t - zone) / interval).Floor;
    OffsetIsTruncatedBoundary(interval, zone, t);
    WholeProduct(interval, k);
    WholeSum(zone, Scaled(interval, k as real));
    TruncWhole(Boundary(interval, zone, k));
  }

  /** An interval that starts at or after time zero. */
  lemma LaterBoundary(interval: real, zone: real) returns (k: int)
    requires interval > 0.0
    ensures Boundary(interval, zone, k) >= 0.0
  {
    k := (-zone / interval).Floor + 1;
    FloorQuotient(-zone, interval, k - 1);
    ScaledNext(interval, (k - 1) as real);
  }

  /** With a fractional interval, some interval starts at a fraction of a second. */
  lemma FractionalBoundary(interval: real, zone: real) returns (k: int)
    requires interval > 0.0 && !Whole(interval)
    ensures Boundary(interval, zone, k) >= 0.0 && !Whole(Boundary(interval, zone, k))
  {
    k := LaterBoundary(interval, zone);
    ScaledNext(interval, k as real);
    if Whole(Boundary(interval, zone, k)) {
      if Whole(Boundary(interval, zone, k + 1)) {
        WholeDifference(Boundary(interval, zone, k + 1), Boundary(interval, zone, k));
        assert false;
      }
      k := k + 1;
    }
  }

  /** With a fractional interval, there are times for which the "next" boundary is already past. */
  lemma FractionalIntervalsLag(interval: real, zone: real) returns (t: real)
    requires interval > 0.0 && !Whole(interval)
    ensures AlignmentOffset(interval, zone, t) as real + interval <= t
  {
    var k := FractionalBoundary(interval, zone);
    var base := Boundary(interval, zone, k);
    var fraction := base - base.Floor as real;
    var margin := if fraction < interval then fraction / 2.0 else interval / 2.0;
    t := base + interval - margin;
    FloorQuotient(t - zone, interval, k);
    OffsetIsTruncatedBoundary(interval, zone, t);
  }

  /** Alignment always finds a time ahead exactly when the interval is a whole number of seconds. */
  lemma AlignsAheadIff(interval: real, zone: real)
    requires interval > 0.0 && Whole(zone)
    ensures (forall t :: AlignmentOffset(interval, zone, t) as real + interval > t) <==> Whole(interval)
  {
    if Whole(interval) {
      forall t: real
        ensures AlignmentOffset(interval, zone, t) as real + interval > t
      {
        WholeIntervalsAlignAhead(interval, zone, t);
      }
    } else {
      var t := FractionalIntervalsLag(interval, zone);
    }
  }

  // ---- The first slot of a task

  function SlotTime(startTime: real, slot: int): real {
    startTime + TICK * slot as real
  }

  /** The slot in which a task is first registered. */
  function FirstSlot(nextCount: int, startTime: real, interval: real, alignment: Alignment, delay: real): int
    requires alignment.AlignedTo? ==> interval != 0.0
  {
    var slot := nextCount + TickCount(delay);
    match alignment
    case Unaligned => slot
    case AlignedTo(zone) =>
      var time := AlignmentOffset(interval, zone, SlotTime(startTime, slot)) as real + interval;
      Trunc((time - startTime) / TICK + 1.0)
  }

  /** An unaligned task is not registered in the past exactly when its delay is more than minus one tick. */
  lemma UnalignedFirstSlot(nextCount: int, startTime: real, interval: real, delay: real)
    ensures FirstSlot(nextCount, startTime, interval, Unaligned, delay) >= nextCount <==> delay > -TICK
  {
  }

  /** A task aligned to whole seconds is registered after its delay, and not before its aligned time. */
  lemma AlignedFirstSlot(nextCount: int, startTime: real, interval: real, zone: real, delay: real)
    requires interval > 0.0 && Whole(interval) && Whole(zone)
    ensures var slot := FirstSlot(nextCount, startTime, interval, AlignedTo(zone), delay);
            var due := SlotTime(startTime, nextCount + TickCount(delay));
            && slot > nextCount + TickCount(delay)
            && SlotTime(startTime, slot) > AlignmentOffset(interval, zone, due) as real + interval > due
  {
    WholeIntervalsAlignAhead(interval, zone, SlotTime(startTime, nextCount + TickCount(delay)));
  }

  /** Half a second, aligned: the task is registered in a slot that is 99 ticks past. */
  lemma FractionalFirstSlotIsPast()
    ensures FirstSlot(600, 10.0, 0.5, AlignedTo(0.0), 0.0) == 501
  {
    assert SlotTime(10.0, 600) == 10.6;
    FloorQuotient(10.6, 0.5, 21);
    assert Scaled(0.5, 21.0) == 10.5;
    assert AlignmentOffset(0.5, 0.0, 10.6) == 10;
  }

  // ---- When the first slot of an aligned task is past

  function Fraction(x: real): (f: real)
    ensures 0.0 <= f < 1.0
  {
    x - x.Floor as real
  }

  lemma FractionOf(x: real, n: int, f: real)
    requires x == n as real + f && 0.0 <= f < 1.0
    ensures Fraction(x) == f
  {
    var m := x.Floor;
    assert m as real <= x < m as real + 1.0;
    assert (m - n) as real == m as real - n as real;
    assert -1.0 < (m - n) as real < 1.0;
    assert m == n;
  }

  lemma FractionOfSum(x: real, y: real)
    ensures var f := Fraction(x) + Fraction(y);
            Fraction(x + y) == if f < 1.0 then f else f - 1.0
  {
    var f, n := Fraction(x) + Fraction(y), x.Floor + y.Floor;
    assert x + y == n as real + f;
    if f < 1.0 {
      FractionOf(x + y, n, f);
    } else {
      FractionOf(x + y, n + 1, f - 1.0);
    }
  }

  /** A number of steps that together are longer than a given distance. */
  lemma Archimedes(step: real, distance: real) returns (n: nat)
    requires step > 0.0 && distance >= 0.0
    ensures Scaled(step, n as real) > distance
  {
    var k := (distance / step).Floor;
    FloorQuotient(distance, step, k);
    ScaledNext(step, k as real);
    n := k + 1;
  }

  /** From an interval that starts just after a whole second, the starts move on until they are late enough. */
  lemma {:induction false} RisingFractions(interval: real, zone: real, k: int, n: nat) returns (j: int)
    requires 0.0 < Fraction(interval) < 0.5 && interval > 0.0 && Boundary(interval, zone, k) >= 0.0
    requires Scaled(Fraction(interval), n as real) > 0.01 - Fraction(Boundary(interval, zone, k))
    ensures Boundary(interval, zone, j) >= 0.0 && Fraction(Boundary(interval, zone, j)) > 0.01
    decreases n
  {
    if Fraction(Boundary(interval, zone, k)) > 0.01 {
      j := k;
    } else {
      NextBoundary(interval, zone, k);
      ScaledNext(Fraction(interval), (n - 1) as real);
      j := RisingFractions(interval, zone, k + 1, n - 1);
    }
  }

  lemma NextBoundary(interval: real, zone: real, k: int)
    ensures Boundary(interval, zone, k + 1) == Boundary(interval, zone, k) + interval
    ensures var f := Fraction(Boundary(interval, zone, k)) + Fraction(interval);
            Fraction(Boundary(interval, zone, k + 1)) == if f < 1.0 then f else f - 1.0
  {
    ScaledNext(interval, k as real);
    FractionOfSum(Boundary(interval, zone, k), interval);
  }

  /** Or they move back, until they are just before a whole second. */
  lemma {:induction false} FallingFractions(interval: real, zone: real, k: int, n: nat) returns (j: int)
    requires Fraction(interval) >= 0.5 && interval > 0.0 && Boundary(interval, zone, k) >= 0.0
    requires Scaled(1.0 - Fraction(interval), n as real) > Fraction(Boundary(interval, zone, k))
    ensures Boundary(interval, zone, j) >= 0.0 && Fraction(Boundary(interval, zone, j)) > 0.01
    decreases n
  {
    NextBoundary(interval, zone, k);
    var f := Fraction(Boundary(interval, zone, k));
    if f + Fraction(interval) < 1.0 {
      j := k + 1;
    } else {
      ScaledNext(1.0 - Fraction(interval), (n - 1) as real);
      j := FallingFractions(interval, zone, k + 1, n - 1);
    }
  }

  /** With a fractional interval, some interval starts well after a whole second. */
  lemma LateBoundary(interval: real, zone: real) returns (k: int)
    requires interval > 0.0 && !Whole(interval)
    ensures Boundary(interval, zone, k) >= 0.0 && Fraction(Boundary(interval, zone, k)) > 0.01
  {
    k := FractionalBoundary(interval, zone);
    if Fraction(interval) < 0.5 {
      var n := Archimedes(Fraction(interval), 0.01);
      k := RisingFractions(interval, zone, k, n);
    } else {
      var n := Archimedes(1.0 - Fraction(interval), 1.0);
      k := FallingFractions(interval, zone, k, n);
    }
  }

  /** A reference time at which a task with a fractional interval and no delay starts in the past. */
  lemma FractionalIntervalsStartLate(interval: real, zone: real) returns (startTime: real)
    requires interval > 0.0 && !Whole(interval)
    ensures FirstSlot(0, startTime, interval, AlignedTo(zone), 0.0) < 0
  {
    var k := LateBoundary(interval, zone);
    var base := Boundary(interval, zone, k);
    var margin := if interval < 0.005 then interval / 2.0 else 0.005;
    startTime := base + interval - margin;
    FloorQuotient(startTime - zone, interval, k);
    OffsetIsTruncatedBoundary(interval, zone, startTime);
    assert SlotTime(startTime, 0) == startTime;
    assert AlignmentOffset(interval, zone, startTime) as real == base - Fraction(base);
    var ticks := (base - Fraction(base) + interval - startTime) / TICK + 1.0;
    assert ticks <= -4.0;
  }

  lemma TruncAbove(x: real, n: int)
    ensures x > n as real ==> Trunc(x) >= n
    ensures x < n as real && n > 0 ==> Trunc(x) < n
    ensures Trunc(x) >= x.Floor
  {
  }

  /** With a whole interval, all intervals start at the same fraction of a second. */
  lemma SameFraction(interval: real, zone: real, k: int)
    requires Whole(interval)
    ensures Fraction(Boundary(interval, zone, k)) == Fraction(zone)
  {
    WholeProduct(interval, k);
    FractionOfSum(zone, Scaled(interval, k as real));
  }

  lemma WholeIntervalsStartInTime(nextCount: int, startTime: real, interval: real, zone: real, delay: real)
    requires interval > 0.0 && Whole(interval) && Fraction(zone) <= TICK && delay > -TICK
    ensures FirstSlot(nextCount, startTime, interval, AlignedTo(zone), delay) >= nextCount
  {
    var slot := nextCount + TickCount(delay);
    var due := SlotTime(startTime, slot);
    var k := ((due - zone) / interval).Floor;
    OffsetIsTruncatedBoundary(interval, zone, due);
    SameFraction(interval, zone, k);
    TruncAbove(Boundary(interval, zone, k), 0);
    var ticks := (AlignmentOffset(interval, zone, due) as real + interval - startTime) / TICK + 1.0;
    assert AlignmentOffset(interval, zone, due) as real + interval > due - TICK;
    TruncAbove(ticks, slot);
  }

  /** When a task is aligned to a fraction of a second, a reference time at which it starts in the past. */
  lemma FractionalZonesStartLate(interval: real, zone: real) returns (startTime: real)
    requires interval > 0.0 && Whole(interval) && Fraction(zone) > TICK
    ensures FirstSlot(10, startTime, interval, AlignedTo(zone), 0.0) < 10
  {
    var k := LaterBoundary(interval, zone);
    var base := Boundary(interval, zone, k);
    var margin := (Fraction(zone) - TICK) / 2.0;
    var due := base + interval - margin;
    startTime := due - 0.01;
    SameFraction(interval, zone, k);
    FloorQuotient(due - zone, interval, k);
    OffsetIsTruncatedBoundary(interval, zone, due);
    assert SlotTime(startTime, 10) == due;
    assert AlignmentOffset(interval, zone, due) as real == base - Fraction(zone);
    var ticks := (base - Fraction(zone) + interval - startTime) / TICK + 1.0;
    assert ticks < 10.0;
    TruncAbove(ticks, 10);
  }

  /**
   The first slot of an aligned task is never past, whatever the reference time and the delay from now, exactly
   when its interval is a whole number of seconds, and it is not aligned to more than a tick after a whole second.
   */
  lemma AlignedNeverLateIff(interval: real, zone: real)
    requires interval > 0.0
    ensures (forall nextCount, startTime, delay :: delay > -TICK ==>
               FirstSlot(nextCount, startTime, interval, AlignedTo(zone), delay) >= nextCount)
       <==> Whole(interval) && Fraction(zone) <= TICK
  {
    if Whole(interval) && Fraction(zone) <= TICK {
      forall nextCount, startTime, delay | delay > -TICK
        ensures FirstSlot(nextCount, startTime, interval, AlignedTo(zone), delay) >= nextCount
      {
        WholeIntervalsStartInTime(nextCount, startTime, interval, zone, delay);
      }
    } else if Whole(interval) {
      var startTime := FractionalZonesStartLate(interval, zone);
    } else {
      var startTime := FractionalIntervalsStartLate(interval, zone);
    }
  }
}
