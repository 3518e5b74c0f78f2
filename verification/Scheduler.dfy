/**
 The scheduler's object: its fields, and the critical sections that update them.  Each method carries
 out one step of the state machine, of which the fields are the state.
 */
module Schedulers {
  import opened Ticks
  import opened Alignment
  import opened SchedulerMachine
  import opened SchedulerInvariants
  import opened SchedulerTiming
  import opened SchedulerRuns
  import opened SchedulerRequests

  class Scheduler {
    var nextCount: int
    var startTime: real
    var nextTime: real
    var locks: Table
    var tasks: map<string, nat>
    var threads: seq<Incarnation>

    ghost function View(): State
      reads this
    {
      State(nextCount, startTime, nextTime, locks, tasks, threads)
    }

    ghost predicate Valid()
      reads this
    {
      Inv(View())
    }

    /** Start the timer: its reference time is now. */
    constructor (now: real)
      ensures Valid() && View() == InitialState(now)
    {
      nextCount, startTime, nextTime := 0, now, now;
      locks, tasks, threads := map[], map[], [];
    }

    /** Register a task, in the place of any earlier one with its handle; `raised` tells whether that fails. */
    method Add(r: Request) returns (raised: bool)
      requires Valid()
      modifies this
      ensures Valid() && View() == AddStep(old(View()), r)
      ensures raised <==> AddRaises(old(View()), r)
      ensures !raised ==>
                var id := |old(threads)|;
                && r.handle in tasks && tasks[r.handle] == id < |threads|
                && WorksFor(threads[id], r, old(nextCount), old(startTime))
      ensures old(Timely(View())) ==> (Timely(View()) <==> old(AddsInTime(View(), r)))
    {
      ghost var before := View();
      raised := EnterTask(r);
      AddKeepsInv(before, r);
      if !raised {
        AddRegisters(before, r);
      }
      if Timely(before) {
        AddKeepsTimelyIff(before, r);
      }
    }

    /** Enter a new incarnation in the table of tasks, and in that of slots unless this raises. */
    method EnterTask(r: Request) returns (raised: bool)
      requires Valid()
      modifies this
      ensures View() == AddStep(old(View()), r)
      ensures raised <==> AddRaises(old(View()), r)
    {
      var id := |threads|;
      raised := ReleaseOther(r.handle);
      ReplacedEntry(tasks, r.handle, id);
      tasks := tasks[r.handle := id];
      if !raised && r.alignment.AlignedTo? {
        raised := r.interval == 0.0;  // the division of the alignment raises
      }
      if raised {
        threads := threads + [Orphan(r, nextCount)];
      } else {
        var slot := FirstSlot(nextCount, startTime, r.interval, r.alignment, r.delay);
        threads := threads + [NewThread(r, slot)];
        RegisterLock(slot, id);
      }
    }

    /** Release the lock of the incarnation that is registered for a handle, which raises if it is not held. */
    method ReleaseOther(handle: string) returns (raised: bool)
      requires Valid()
      modifies this`threads
      ensures threads == Retire(old(View()), handle).threads
      ensures raised <==> handle in tasks && !old(threads)[tasks[handle]].locked
    {
      raised := false;
      if handle in tasks {
        var other := tasks[handle];
        raised := !threads[other].locked;
        threads := threads[other := threads[other].(locked := false)];
      }
    }

    /** Append a lock to a slot of the table, which is created if need be. */
    method RegisterLock(slot: int, id: nat)
      modifies this`locks
      ensures locks == Append(old(locks), slot, id)
    {
      if slot !in locks {
        locks := locks[slot := []];
      }
      locks := locks[slot := locks[slot] + [id]];
    }

    /** Take a lock out of the first slot that has it; `found` is false if there is none. */
    method ClearAlarm(id: nat) returns (found: bool)
      requires Valid() && id < |threads|
      modifies this`locks
      ensures locks == ClearSlot(old(locks), threads[id].nextSlot, id)
      ensures found <==> exists slot :: slot in old(locks) && id in old(locks)[slot]
    {
      var rest := locks.Keys;
      while rest != {}
        invariant rest <= locks.Keys && locks == old(locks)
        invariant forall slot :: slot in locks && slot !in rest ==> id !in locks[slot]
        decreases rest
      {
        assert (forall k :: k !in rest) ==> rest == {};
        var slot :| slot in rest;
        if id in locks[slot] {
          locks := locks[slot := RemoveFirst(locks[slot], id)];
          return true;
        }
        rest := rest - {slot};
      }
      found := false;
      AbsentStays(locks, threads[id].nextSlot, id);
    }

    /** Unregister a task; its thread finds its lock released, and itself no longer registered. */
    method Remove(handle: string) returns (found: bool)
      requires Valid()
      modifies this
      ensures Valid() && View() == RemoveStep(old(View()), handle)
      ensures found <==> handle in old(tasks)
      ensures handle !in tasks
      ensures found ==>
                var id := old(tasks)[handle];
                id < |threads| && !threads[id].locked && NoEntry(View(), id)
    {
      RemoveKeepsInv(View(), handle);
      RemoveUnregisters(View(), handle);
      found := handle in tasks;
      if found {
        var id := tasks[handle];
        var _ := ClearAlarm(id);
        tasks := tasks - {handle};
        if threads[id].locked {
          threads := threads[id := threads[id].(locked := false)];
        }
        assert old(threads)[id := old(threads)[id].(locked := false)] == threads;
      }
    }

    /** The earliest occupied slot, but no later than `limit`. */
    method EarliestSlot(limit: int) returns (slot: int)
      ensures slot == Earliest(locks, limit)
    {
      slot := limit;
      var rest := locks.Keys;
      while rest != {}
        invariant rest <= locks.Keys && slot <= limit && (slot == limit || slot in locks)
        invariant forall k :: k in locks && k !in rest ==> slot <= k
        decreases rest
      {
        assert (forall k :: k !in rest) ==> rest == {};
        var k :| k in rest;
        if k < slot {
          slot := k;
        }
        rest := rest - {k};
      }
    }

    /** Release the locks popped from a slot; releasing one that is not held raises, which is caught. */
    method ReleaseLocks(ids: seq<nat>)
      requires NoDuplicates(ids) && forall id :: id in ids ==> id < |threads|
      modifies this`threads
      ensures threads == ReleaseAll(old(threads), ids)
    {
      var i := 0;
      while i < |ids|
        invariant 0 <= i <= |ids|
        invariant threads == ReleaseAll(old(threads), ids[..i])
      {
        var id := ids[i];
        assert id in ids;
        ReleaseOneMore(old(threads), ids, i);
        threads := threads[id := TimerReleased(threads[id])];
        i := i + 1;
      }
      assert ids[..i] == ids;
    }

    /** Take the slot that is due out of the table. */
    method PopDue() returns (popped: seq<nat>)
      requires Valid()
      modifies this`locks
      ensures popped == LocksAt(old(locks), nextCount) && locks == old(locks) - {nextCount}
      ensures NoDuplicates(popped) && forall id :: id in popped ==> id < |threads|
    {
      popped := if nextCount in locks then locks[nextCount] else [];
      assert forall id :: id in popped ==> id in locks[nextCount];
      locks := locks - {nextCount};
    }

    /** One round of the timer loop: release the locks of the slot that is due, and find the next deadline. */
    method TimerRound(now: real)
      requires Valid() && Enabled(View(), Timer(now))
      modifies this
      ensures Valid() && View() == TimerStep(old(View()), now)
      ensures nextCount > old(nextCount) <==> old(IsAhead(locks, nextCount))
    {
      ghost var before := View();
      var popped := PopDue();
      ReleaseLocks(popped);
      SetDeadline(now);
      TimerKeepsInv(before, now);
      TimerAdvancesIff(before, now);
    }

    /** Move the reference time along when the clock was shifted, and find the next deadline. */
    method SetDeadline(now: real)
      modifies this`startTime, this`nextCount, this`nextTime
      ensures startTime == Rebased(old(startTime), old(nextTime), now)
      ensures nextCount == Earliest(locks, TickCount(now + MAX_SLEEP - startTime))
      ensures nextTime == SlotTime(startTime, nextCount)
    {
      var skew := now - nextTime;
      if skew > TIME_SHIFT_LIMIT || -skew > TIME_SHIFT_LIMIT {
        startTime := startTime + skew;
      }
      var maxTicks := TickCount(now + MAX_SLEEP - startTime);
      nextCount := EarliestSlot(maxTicks);
      nextTime := SlotTime(startTime, nextCount);
    }

    /** A thread acquires its released lock. */
    method Acquire(id: nat)
      requires Valid() && Enabled(View(), Wake(id))
      modifies this`threads
      ensures Valid() && View() == Next(old(View()), Wake(id))
    {
      WakeKeepsInv(View(), id);
      threads := threads[id := threads[id].(locked := true, phase := Checking)];
    }

    /** A thread looks whether it is still registered, and if so goes on to invoke its method. */
    method StillRegistered(id: nat) returns (registered: bool)
      requires Valid() && Enabled(View(), Check(id))
      modifies this`threads
      ensures Valid() && View() == Next(old(View()), Check(id))
      ensures registered <==> threads[id].phase.Invoking?
    {
      CheckKeepsInv(View(), id);
      var handle := threads[id].handle;
      registered := handle in tasks && tasks[handle] == id;
      threads := threads[id := threads[id].(phase := if registered then Invoking else Exiting)];
    }

    /** The bookkeeping after an invocation, successful or not; `goOn` is false after too many failures. */
    method AfterInvocation(id: nat, success: bool) returns (goOn: bool)
      requires Valid() && Enabled(View(), Finish(id, success))
      modifies this`threads
      ensures Valid() && View() == Next(old(View()), Finish(id, success))
      ensures goOn <==> threads[id].phase.Rescheduling?
    {
      FinishKeepsInv(View(), id, success);
      var t := threads[id];
      t := t.(outcomes := t.outcomes + [success]);
      if success {
        t := t.(failures := 0);
      } else {
        t := t.(failures := t.failures + 1);
      }
      goOn := success || t.failures <= t.maxRetries;
      if goOn {
        if t.remaining.Times? && t.remaining.n != 0 {
          t := t.(remaining := Times(t.remaining.n - 1));
        }
        t := t.(phase := Rescheduling);
      } else {
        t := t.(phase := Exiting);
      }
      threads := threads[id := t];
    }

    /** Register the lock again, in the task's next slot, unless it lies in one that is yet to come. */
    method RegisterNext(id: nat)
      requires Valid() && Enabled(View(), Reschedule(id))
      modifies this`threads, this`locks
      ensures Valid() && View() == Next(old(View()), Reschedule(id))
    {
      RescheduleKeepsInv(View(), id);
      var t := threads[id];
      var slot := t.nextSlot;
      if slot < nextCount {
        slot := nextCount - 1 + t.frequency - (nextCount - 1 - slot) % t.frequency;
      }
      RegisterLock(slot, id);
      var phase := if t.remaining.Times? && t.remaining.n <= 0 then Exiting else Waiting;
      threads := threads[id := t.(nextSlot := slot, slots := t.slots + [slot], phase := phase)];
      assert slot == NextSlot(t.nextSlot, t.frequency, nextCount);
      assert View() == RescheduleStep(old(View()), id);
    }

    /** The end of a thread: it unregisters its task, unless another incarnation has taken its place. */
    method Unschedule(id: nat)
      requires Valid() && Enabled(View(), Exit(id))
      modifies this`threads, this`tasks
      ensures Valid() && View() == Next(old(View()), Exit(id))
    {
      ExitKeepsInv(View(), id);
      var handle := threads[id].handle;
      if handle in tasks && tasks[handle] == id {
        tasks := tasks - {handle};
      }
      threads := threads[id := threads[id].(phase := Finished)];
    }
  }

  lemma ReleaseOneMore(threads: seq<Incarnation>, ids: seq<nat>, i: nat)
    requires NoDuplicates(ids) && i < |ids| && ids[i] < |threads|
    ensures ReleaseAll(threads, ids[..i + 1]) ==
            ReleaseAll(threads, ids[..i])[ids[i] := TimerReleased(ReleaseAll(threads, ids[..i])[ids[i]])]
  {
    assert ids[..i + 1] == ids[..i] + [ids[i]];
    assert ids[i] !in ids[..i];
  }

  lemma ReplacedEntry(tasks: map<string, nat>, handle: string, id: nat)
    ensures (tasks - {handle})[handle := id] == tasks[handle := id]
  {
  }

  lemma {:induction false} RemoveAbsent(ids: seq<nat>, id: nat)
    requires id !in ids
    ensures RemoveFirst(ids, id) == ids
  {
    if ids != [] {
      RemoveAbsent(ids[1..], id);
    }
  }

  lemma AbsentStays(table: Table, slot: int, id: nat)
    requires slot in table ==> id !in table[slot]
    ensures ClearSlot(table, slot, id) == table
  {
    if slot in table {
      RemoveAbsent(table[slot], id);
    }
  }
}
