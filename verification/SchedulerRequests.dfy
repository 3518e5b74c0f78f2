/**
 What callers of the scheduler can rely on: a task is registered as it was requested, and stays so in every later
 state; a task that is removed is gone; and the timer keeps the times of slots when the clock is shifted.
 */
module SchedulerRequests {
  import opened Ticks
  import opened Alignment
  import opened SchedulerMachine
  import opened SchedulerInvariants
  import opened SchedulerRuns

  // ---- Times in terms of seconds

  /** `n` is a number of seconds, or of anything else, without its fraction. */
  predicate IsTruncation(n: int, x: real) {
    if x >= 0.0 then n as real <= x < n as real + 1.0 else n as real - 1.0 < x <= n as real
  }

  lemma TruncIsTruncation(x: real)
    ensures IsTruncation(Trunc(x), x)
  {
    assert (-x).Floor as real <= -x < (-x).Floor as real + 1.0;
  }

  /** As many milliseconds as the interval has, and one if it has none. */
  predicate IsPeriod(frequency: int, interval: real) {
    if interval < 0.001 then frequency == 1
    else frequency as real * 0.001 <= interval < (frequency + 1) as real * 0.001
  }

  /** The `k`th of the intervals that follow each other from `zone` on holds a time; negative ones are laid backward. */
  ghost predicate HoldsTime(interval: real, zone: real, k: int, time: real) {
    var start := zone + Scaled(interval, k as real);
    if interval > 0.0 then start <= time < start + interval else start + interval < time <= start
  }

  /** `base` is the start of the interval that holds the time, in whole seconds. */
  ghost predicate IsAligned(base: int, interval: real, zone: real, time: real) {
    exists k :: HoldsTime(interval, zone, k, time) && IsTruncation(base, zone + Scaled(interval, k as real))
  }

  /** The number of a slot is that of the milliseconds from the reference time on. */
  predicate IsSlotOf(slot: int, time: real, startTime: real) {
    IsTruncation(slot, (time - startTime) / 0.001)
  }

  predicate IsDelayed(due: int, nextCount: int, delay: real) {
    IsTruncation(due - nextCount, delay / 0.001)
  }

  /** The first slot of a task: after its delay, and if it is aligned, an interval after the one that this falls in. */
  ghost predicate IsFirstSlot(slot: int, r: Request, nextCount: int, startTime: real) {
    exists due :: IsDelayed(due, nextCount, r.delay) && IsFirstFrom(slot, r, due, startTime)
  }

  ghost predicate IsFirstFrom(slot: int, r: Request, due: int, startTime: real) {
    match r.alignment
    case Unaligned => slot == due
    case AlignedTo(zone) => IsNextInterval(slot, r.interval, zone, startTime + 0.001 * due as real, startTime)
  }

  ghost predicate IsNextInterval(slot: int, interval: real, zone: real, time: real, startTime: real) {
    exists base :: IsAligned(base, interval, zone, time)
                   && IsTruncation(slot, (base as real + interval - startTime) / 0.001 + 1.0)
  }

  lemma HeldBackward(interval: real, zone: real, time: real)
    requires interval < 0.0
    ensures HoldsTime(interval, zone, ((time - zone) / interval).Floor, time)
  {
    var q := (time - zone) / interval;
    assert q == (zone - time) / -interval;
    FloorQuotient(zone - time, -interval, q.Floor);
    assert Scaled(-interval, q.Floor as real) == -Scaled(interval, q.Floor as real);
  }

  lemma OffsetIsAligned(interval: real, zone: real, time: real)
    requires interval != 0.0
    ensures IsAligned(AlignmentOffset(interval, zone, time), interval, zone, time)
  {
    var k := ((time - zone) / interval).Floor;
    if interval > 0.0 {
      FloorQuotient(time - zone, interval, k);
    } else {
      HeldBackward(interval, zone, time);
    }
    assert HoldsTime(interval, zone, k, time);
    TruncIsTruncation(zone + Scaled(interval, k as real));
  }

  lemma FirstSlotIsFirst(r: Request, nextCount: int, startTime: real)
    requires r.alignment.AlignedTo? ==> r.interval != 0.0
    ensures IsFirstSlot(FirstSlot(nextCount, startTime, r.interval, r.alignment, r.delay), r, nextCount, startTime)
  {
    var due := nextCount + TickCount(r.delay);
    TruncIsTruncation(r.delay / 0.001);
    var slot := FirstSlot(nextCount, startTime, r.interval, r.alignment, r.delay);
    if r.alignment.AlignedTo? {
      var time := startTime + 0.001 * due as real;
      var base := AlignmentOffset(r.interval, r.alignment.zone, time);
      OffsetIsAligned(r.interval, r.alignment.zone, time);
      TruncIsTruncation((base as real + r.interval - startTime) / 0.001 + 1.0);
    }
    assert IsDelayed(due, nextCount, r.delay) && IsFirstFrom(slot, r, due, startTime);
  }

  // ---- Adding

  /** An incarnation that works as requested, from its first slot on. */
  ghost predicate WorksFor(t: Incarnation, r: Request, nextCount: int, startTime: real) {
    && t.handle == r.handle && IsPeriod(t.frequency, r.interval)
    && t.repeats == r.repeats && t.maxRetries == r.maxRetries
    && t.slots != [] && IsFirstSlot(t.slots[0], r, nextCount, startTime)
  }

  /** All registrations but that of one handle, the time, and all other incarnations are the same. */
  ghost predicate LeavesOthersAlone(s: State, s': State, handle: string) {
    && s'.nextCount == s.nextCount && s'.startTime == s.startTime && s'.nextTime == s.nextTime
    && s'.tasks - {handle} == s.tasks - {handle}
    && |s.threads| <= |s'.threads|
    && forall id :: 0 <= id < |s.threads| && !(handle in s.tasks && id == s.tasks[handle]) ==>
         s'.threads[id] == s.threads[id]
  }

  /** An incarnation is the same, but for its lock, which is not held. */
  predicate IsUnlocked(t: Incarnation, t': Incarnation) {
    !t'.locked && t' == t.(locked := false)
  }

  /**
   Adding a task that does not raise registers a new incarnation, as requested: it waits for its first slot with its
   lock held, unless no invocation was requested.  The one that it replaces has its lock released; nothing else
   changes.
   */
  lemma AddRegisters(s: State, r: Request)
    requires Inv(s) && !AddRaises(s, r)
    ensures var s', id := AddStep(s, r), |s.threads|;
            && |s'.threads| == id + 1 && IsCurrent(s', id)
            && WorksFor(s'.threads[id], r, s.nextCount, s.startTime)
            && s'.threads[id].locked && s'.threads[id].outcomes == [] && s'.threads[id].releases == 0
            && s'.threads[id].phase == (if r.repeats.Times? && r.repeats.n <= 0 then Exiting else Waiting)
            && (forall slot :: LocksAt(s'.table, slot) ==
                               LocksAt(s.table, slot) + if slot == s'.threads[id].slots[0] then [id] else [])
            && LeavesOthersAlone(s, s', r.handle)
            && (r.handle in s.tasks ==> IsUnlocked(s.threads[s.tasks[r.handle]], s'.threads[s.tasks[r.handle]]))
  {
    FrequencyIsWholeTicks(r.interval);
    FirstSlotIsFirst(r, s.nextCount, s.startTime);
  }

  /** Where adding raises, the table stays as it was. */
  lemma RaisingAddRegistersNoSlot(s: State, r: Request)
    requires Inv(s) && AddRaises(s, r)
    ensures var s' := AddStep(s, r);
            && s'.table == s.table && LeavesOthersAlone(s, s', r.handle)
            && (r.handle in s.tasks ==> IsUnlocked(s.threads[s.tasks[r.handle]], s'.threads[s.tasks[r.handle]]))
  {
  }

  /**
   Adding raises exactly when it aligns to an interval of zero, or replaces a task that neither waits in the table nor
   is running: the timer has released its lock, and it has not woken up yet.
   */
  lemma AddRaisesIff(s: State, r: Request)
    requires Inv(s) && (r.handle in s.tasks ==> !s.threads[s.tasks[r.handle]].phase.Exiting?)
    ensures AddRaises(s, r) <==>
            || (r.alignment.AlignedTo? && r.interval == 0.0)
            || (r.handle in s.tasks &&
                var id := s.tasks[r.handle];
                s.threads[id].phase.Waiting? && NoEntry(s, id))
  {
    if r.handle in s.tasks {
      var id := s.tasks[r.handle];
      assert IsCurrent(s, id) && InPlace(s, id);
    }
  }

  /** What was requested of an incarnation is the same, and it has kept its slots. */
  predicate GoesOnAs(t: Incarnation, t': Incarnation) {
    && t'.handle == t.handle && t'.frequency == t.frequency
    && t'.repeats == t.repeats && t'.maxRetries == t.maxRetries && t.slots <= t'.slots
  }

  lemma GoesOnTransitive(t: Incarnation, t': Incarnation, t'': Incarnation)
    requires GoesOnAs(t, t') && GoesOnAs(t', t'')
    ensures GoesOnAs(t, t'')
  {
  }

  lemma StepKeepsRequest(s: State, step: Step, s': State, id: nat)
    requires Inv(s) && StepTo(s, step, s') && id < |s.threads|
    ensures id < |s'.threads| && GoesOnAs(s.threads[id], s'.threads[id])
  {
    match step
    case Add(r) =>
    case Remove(handle) =>
    case Timer(now) =>
    case Wake(_) =>
    case Check(_) =>
    case Finish(_, _) =>
    case Reschedule(_) =>
    case Exit(_) =>
  }

  lemma {:induction false} RunKeepsRequest(states: seq<State>, steps: seq<Step>, i: nat, j: nat, id: nat)
    requires Run(states, steps) && i <= j < |states| && id < |states[i].threads|
    ensures id < |states[j].threads| && GoesOnAs(states[i].threads[id], states[j].threads[id])
    decreases j - i
  {
    if i < j {
      StepOfRun(states, steps, i);
      StepKeepsRequest(states[i], steps[i], states[i + 1], id);
      RunKeepsRequest(states, steps, i + 1, j, id);
      GoesOnTransitive(states[i].threads[id], states[i + 1].threads[id], states[j].threads[id]);
    }
  }

  lemma WorksOn(t: Incarnation, t': Incarnation, r: Request, nextCount: int, startTime: real)
    requires WorksFor(t, r, nextCount, startTime) && GoesOnAs(t, t')
    ensures WorksFor(t', r, nextCount, startTime)
  {
  }

  /** In every later state, a task that was added works as it was requested. */
  lemma RegisteredAsRequested(states: seq<State>, steps: seq<Step>, i: nat, j: nat)
    requires Run(states, steps) && i < j < |states| && steps[i].Add? && !AddRaises(states[i], steps[i].request)
    ensures var id := |states[i].threads|;
            && id < |states[j].threads|
            && WorksFor(states[j].threads[id], steps[i].request, states[i].nextCount, states[i].startTime)
  {
    var s, r, id := states[i], steps[i].request, |states[i].threads|;
    StepOfRun(states, steps, i);
    AddRegisters(s, r);
    RunKeepsRequest(states, steps, i + 1, j, id);
    WorksOn(states[i + 1].threads[id], states[j].threads[id], r, s.nextCount, s.startTime);
  }

  /** All slots that it is ever registered in lie whole periods of its interval after the first slot requested. */
  lemma RecursAsRequested(states: seq<State>, steps: seq<Step>, i: nat, j: nat)
    requires Run(states, steps) && i < j < |states| && steps[i].Add? && !AddRaises(states[i], steps[i].request)
    ensures var id, r := |states[i].threads|, steps[i].request;
            && id < |states[j].threads|
            && exists first, period ::
                 && IsFirstSlot(first, r, states[i].nextCount, states[i].startTime) && IsPeriod(period, r.interval)
                 && forall slot :: slot in states[j].threads[id].slots ==> OnGrid(first, period, slot)
  {
    RegisteredAsRequested(states, steps, i, j);
    var id, r := |states[i].threads|, steps[i].request;
    RunsKeepInv(states, steps, j);
    assert InPlace(states[j], id);
    var t := states[j].threads[id];
    assert IsFirstSlot(t.slots[0], r, states[i].nextCount, states[i].startTime) && IsPeriod(t.frequency, r.interval);
    assert forall slot :: slot in t.slots ==> OnGrid(t.slots[0], t.frequency, slot);
  }

  /**
   As long as it stays registered it is invoked as often as was requested, or until it has failed once more in a row
   than it may be retried.
   */
  lemma InvokedAsRequested(states: seq<State>, steps: seq<Step>, i: nat, j: nat)
    requires Run(states, steps) && i < j < |states| && steps[i].Add? && !AddRaises(states[i], steps[i].request)
    requires IsCurrent(states[j], |states[i].threads|)
    ensures var t, r := states[j].threads[|states[i].threads|], steps[i].request;
            && (forall n :: 0 <= n < |t.outcomes| ==> !EndsAfter(r.repeats, r.maxRetries, t.outcomes, n))
            && (t.phase.Exiting? ==> EndsAfter(r.repeats, r.maxRetries, t.outcomes, |t.outcomes|))
            && (t.phase.Waiting? || t.phase.Checking? || t.phase.Invoking? ==>
                  !EndsAfter(r.repeats, r.maxRetries, t.outcomes, |t.outcomes|))
  {
    RegisteredAsRequested(states, steps, i, j);
    InvokedAsOftenAsRequested(states, steps, j, |states[i].threads|);
  }

  // ---- Removing

  /** A sequence without one of its elements. */
  ghost predicate IsWithout(ids: seq<nat>, id: nat, left: seq<nat>) {
    exists k :: 0 <= k < |ids| && ids[k] == id && left == ids[..k] + ids[k + 1..]
  }

  lemma {:induction false} RemoveFirstAt(ids: seq<nat>, id: nat) returns (k: nat)
    requires id in ids
    ensures k < |ids| && ids[k] == id && RemoveFirst(ids, id) == ids[..k] + ids[k + 1..]
  {
    if ids[0] == id {
      k := 0;
    } else {
      k := RemoveFirstAt(ids[1..], id);
      Shifted(ids, k);
      k := k + 1;
    }
  }

  lemma Shifted(ids: seq<nat>, k: nat)
    requires k + 1 < |ids|
    ensures [ids[0]] + (ids[1..][..k] + ids[1..][k + 1..]) == ids[..k + 1] + ids[k + 2..]
  {
  }

  /** The table without one lock. */
  ghost predicate IsTableWithout(table: Table, id: nat, left: Table) {
    forall slot ::
      if id in LocksAt(table, slot) then IsWithout(LocksAt(table, slot), id, LocksAt(left, slot))
      else LocksAt(left, slot) == LocksAt(table, slot)
  }

  lemma ClearSlotIsTableWithout(s: State, id: nat)
    requires Inv(s) && id < |s.threads|
    ensures IsTableWithout(s.table, id, ClearSlot(s.table, s.threads[id].nextSlot, id))
  {
    var at := s.threads[id].nextSlot;
    forall slot
      ensures if id in LocksAt(s.table, slot)
              then IsWithout(LocksAt(s.table, slot), id, LocksAt(ClearSlot(s.table, at, id), slot))
              else LocksAt(ClearSlot(s.table, at, id), slot) == LocksAt(s.table, slot)
    {
      if id in LocksAt(s.table, slot) {
        assert slot == at;
        var k := RemoveFirstAt(s.table[at], id);
      } else if slot == at && at in s.table {
        RemovedAbsent(s.table[at], id);
      }
    }
  }

  lemma {:induction false} RemovedAbsent(ids: seq<nat>, id: nat)
    requires id !in ids
    ensures RemoveFirst(ids, id) == ids
  {
    if ids != [] {
      RemovedAbsent(ids[1..], id);
    }
  }

  /**
   Removing a task takes it out of the table of tasks, and its lock out of that of slots, and releases the lock; nothing
   else changes, and removing one that is not registered changes nothing.
   */
  lemma RemoveUnregisters(s: State, handle: string)
    requires Inv(s)
    ensures var s' := RemoveStep(s, handle);
            && handle !in s'.tasks && LeavesOthersAlone(s, s', handle) && |s'.threads| == |s.threads|
            && (handle !in s.tasks ==> s' == s)
            && (handle in s.tasks ==>
                  var id := s.tasks[handle];
                  && !IsCurrent(s', id) && NoEntry(s', id) && IsUnlocked(s.threads[id], s'.threads[id])
                  && IsTableWithout(s.table, id, s'.table))
  {
    if handle in s.tasks {
      var id := s.tasks[handle];
      ClearSlotIsTableWithout(s, id);
      if s.threads[id].nextSlot in s.table {
        RemoveFirstRemoves(s.table[s.threads[id].nextSlot], id);
      }
    }
  }

  /** A task that was removed is never invoked again, unless it is added again, by another incarnation. */
  lemma RemovedNeverInvokes(states: seq<State>, steps: seq<Step>, i: nat, j: nat)
    requires Run(states, steps) && i < j < |states| && steps[i].Remove? && steps[i].handle in states[i].tasks
    ensures var id := states[i].tasks[steps[i].handle];
            && id < |states[i].threads| && id < |states[j].threads| && !IsCurrent(states[j], id)
            && Started(states[j].threads[id]) == Started(states[i].threads[id])
  {
    var id := states[i].tasks[steps[i].handle];
    StepOfRun(states, steps, i);
    RemoveUnregisters(states[i], steps[i].handle);
    FormerNeverInvokes(states, steps, i + 1, j, id);
  }

  // ---- The timer

  /** The earliest occupied slot, or that of a time if there is none before. */
  ghost predicate IsNextSlot(slot: int, table: Table, time: real, startTime: real) {
    && (forall x :: x in table ==> slot <= x)
    && exists limit :: IsSlotOf(limit, time, startTime) && slot <= limit && (slot == limit || slot in table)
  }

  /**
   A timer step pops the slot that is due and releases the locks in it, and nothing else.  If the clock is within five
   seconds of the deadline, the times of slots stay as they are; if it was shifted by more, they are shifted along,
   so that the slot that is due is due now.  The next slot is the earliest that is occupied, or the one that is a
   tenth of a second from now if there is none before.
   */
  lemma TimerReleasesDueLocks(s: State, now: real)
    requires Inv(s)
    ensures var s', due := TimerStep(s, now), LocksAt(s.table, s.nextCount);
            && s'.table == s.table - {s.nextCount} && s'.tasks == s.tasks && |s'.threads| == |s.threads|
            && (forall id :: 0 <= id < |s.threads| ==>
                  if id in due then IsUnlocked(s.threads[id].(releases := s.threads[id].releases + 1), s'.threads[id])
                  else s'.threads[id] == s.threads[id])
            && s'.startTime == (if -5.0 <= now - s.nextTime <= 5.0 then s.startTime
                                else now - 0.001 * s.nextCount as real)
            && s'.nextTime == s'.startTime + 0.001 * s'.nextCount as real
            && IsNextSlot(s'.nextCount, s'.table, now + 0.1, s'.startTime)
  {
    var s' := TimerStep(s, now);
    TruncIsTruncation((now + 0.1 - s'.startTime) / 0.001);
    assert IsSlotOf(TickCount(now + MAX_SLEEP - s'.startTime), now + 0.1, s'.startTime);
  }
}
