/** What every step of the scheduler keeps, and what follows for whole runs. */
module SchedulerInvariants {
  import opened Ticks
  import opened Alignment
  import opened SchedulerMachine

  // ---- Steps of a single thread

  lemma StaysInPlace(s: State, s': State, i: nat)
    requires i < |s.threads| && InPlace(s, i)
    requires i < |s'.threads| && s'.threads[i] == s.threads[i]
    requires IsCurrent(s', i) == IsCurrent(s, i) && HasEntry(s', i) == HasEntry(s, i)
    ensures InPlace(s', i)
  {
  }

  /** A step that changes one thread only, and leaves its handle and slot alone. */
  lemma ThreadStepKeepsInv(s: State, id: nat, t': Incarnation)
    requires Inv(s) && id < |s.threads|
    requires t'.handle == s.threads[id].handle && t'.nextSlot == s.threads[id].nextSlot
    requires Recorded(t') && Placed(t', IsCurrent(s, id), HasEntry(s, id))
    ensures Inv(s.(threads := s.threads[id := t']))
  {
    var s' := s.(threads := s.threads[id := t']);
    forall i | 0 <= i < |s'.threads|
      ensures InPlace(s', i)
    {
      assert IsCurrent(s', i) == IsCurrent(s, i) && HasEntry(s', i) == HasEntry(s, i);
      if i != id {
        StaysInPlace(s, s', i);
      }
    }
  }

  lemma WakeKeepsInv(s: State, id: nat)
    requires Inv(s) && Enabled(s, Wake(id))
    ensures Inv(Next(s, Wake(id)))
  {
    assert InPlace(s, id);
    ThreadStepKeepsInv(s, id, s.threads[id].(locked := true, phase := Checking));
  }

  lemma CheckKeepsInv(s: State, id: nat)
    requires Inv(s) && Enabled(s, Check(id))
    ensures Inv(Next(s, Check(id)))
  {
    assert InPlace(s, id);
    ThreadStepKeepsInv(s, id, s.threads[id].(phase := if IsCurrent(s, id) then Invoking else Exiting));
  }

  lemma FinishKeepsRecord(t: Incarnation, success: bool)
    requires Recorded(t) && t.phase.Invoking?
    ensures Recorded(FinishOne(t, success))
    ensures FinishOne(t, success).phase.Exiting? ==> StopsAt(t.repeats, t.maxRetries, t.outcomes + [success])
  {
    var outcomes := t.outcomes + [success];
    assert outcomes[..|t.outcomes|] == t.outcomes;
    assert forall n :: 0 <= n < |t.outcomes| ==> outcomes[..n] == t.outcomes[..n];
  }

  lemma FinishKeepsInv(s: State, id: nat, success: bool)
    requires Inv(s) && Enabled(s, Finish(id, success))
    ensures Inv(Next(s, Finish(id, success)))
  {
    assert InPlace(s, id);
    FinishKeepsRecord(s.threads[id], success);
    ThreadStepKeepsInv(s, id, FinishOne(s.threads[id], success));
  }

  // ---- Registering slots

  lemma AppendKeepsTable(s: State, slot: int, id: nat)
    requires TableOk(s) && id < |s.threads|
    requires s.threads[id].nextSlot == slot && id !in LocksAt(s.table, slot)
    ensures TableOk(s.(table := Append(s.table, slot, id)))
  {
  }

  lemma RescheduledRecord(t: Incarnation, nextCount: int)
    requires Recorded(t) && t.phase.Rescheduling?
    ensures var slot := NextSlot(t.nextSlot, t.frequency, nextCount);
            Recorded(t.(nextSlot := slot, slots := t.slots + [slot], phase := LoopHead(t.remaining)))
  {
    var slot := NextSlot(t.nextSlot, t.frequency, nextCount);
    NextSlotOnGrid(t.nextSlot, t.frequency, nextCount);
    var slots := t.slots + [slot];
    OnGridTransitive(t.slots[0], t.nextSlot, slot, t.frequency);
    forall i, j | 0 <= i < j < |slots|
      ensures slots[i] <= slots[j]
    {
      if j == |t.slots| {
        assert t.slots[i] <= t.slots[|t.slots| - 1];
      }
    }
  }

  lemma RescheduleKeepsInv(s: State, id: nat)
    requires Inv(s) && Enabled(s, Reschedule(id))
    ensures Inv(Next(s, Reschedule(id)))
  {
    var s', t := Next(s, Reschedule(id)), s.threads[id];
    assert InPlace(s, id);
    RescheduledRecord(t, s.nextCount);
    var t', slot := s'.threads[id], s'.threads[id].nextSlot;
    assert TableOk(s') by {
      assert id !in LocksAt(s.table, slot);
      var s1 := s.(threads := s'.threads);
      assert TableOk(s1);
      AppendKeepsTable(s1, slot, id);
    }
    forall i | 0 <= i < |s'.threads|
      ensures InPlace(s', i)
    {
      assert IsCurrent(s', i) == IsCurrent(s, i);
      if i == id {
        assert HasEntry(s', id);
        assert LoopHead(t.remaining).Exiting? ==> StopsAt(t.repeats, t.maxRetries, t.outcomes);
      } else {
        StaysInPlace(s, s', i);
      }
    }
  }

  // ---- Registering and retiring incarnations

  lemma RetireKeepsInv(s: State, handle: string)
    requires Inv(s)
    ensures Inv(Retire(s, handle))
  {
    if handle in s.tasks {
      var s', id := Retire(s, handle), s.tasks[handle];
      forall i | 0 <= i < |s'.threads|
        ensures InPlace(s', i)
      {
        assert HasEntry(s', i) == HasEntry(s, i);
        assert IsCurrent(s, id) && InPlace(s, i);
        assert IsCurrent(s', i) == (IsCurrent(s, i) && i != id);
        if i != id {
          StaysInPlace(s, s', i);
        }
      }
    }
  }

  lemma NoDuplicatesRest(ids: seq<nat>)
    requires NoDuplicates(ids) && ids != []
    ensures NoDuplicates(ids[1..]) && ids[0] !in ids[1..]
  {
    assert forall j :: 0 <= j < |ids[1..]| ==> ids[1..][j] == ids[j + 1] != ids[0];
  }

  lemma NoDuplicatesCons(id: nat, rest: seq<nat>)
    requires NoDuplicates(rest) && id !in rest
    ensures NoDuplicates([id] + rest)
  {
  }

  lemma {:induction false} RemoveFirstRemoves(ids: seq<nat>, id: nat)
    requires NoDuplicates(ids)
    ensures NoDuplicates(RemoveFirst(ids, id))
    ensures forall i :: i in RemoveFirst(ids, id) <==> i in ids && i != id
  {
    if ids != [] {
      NoDuplicatesRest(ids);
      assert ids == [ids[0]] + ids[1..];
      if ids[0] != id {
        RemoveFirstRemoves(ids[1..], id);
        NoDuplicatesCons(ids[0], RemoveFirst(ids[1..], id));
      }
    }
  }

  lemma ClearKeepsInv(s: State, id: nat)
    requires Inv(s) && id < |s.threads| && !IsCurrent(s, id)
    ensures Inv(s.(table := ClearSlot(s.table, s.threads[id].nextSlot, id)))
  {
    var slot := s.threads[id].nextSlot;
    var s' := s.(table := ClearSlot(s.table, slot, id));
    if slot in s.table {
      RemoveFirstRemoves(s.table[slot], id);
    }
    forall i | 0 <= i < |s'.threads|
      ensures InPlace(s', i)
    {
      assert InPlace(s, i);
      assert IsCurrent(s', i) == IsCurrent(s, i);
      assert HasEntry(s', i) == (HasEntry(s, i) && i != id);
    }
  }

  lemma RemoveKeepsInv(s: State, handle: string)
    requires Inv(s)
    ensures Inv(RemoveStep(s, handle))
  {
    if handle in s.tasks {
      RetireKeepsInv(s, handle);
      var id := s.tasks[handle];
      assert s.threads[id].handle == handle;
      ClearKeepsInv(Retire(s, handle), id);
    }
  }

  lemma RegisterKeepsInv(s: State, t: Incarnation)
    requires Inv(s) && t.handle !in s.tasks
    requires Recorded(t) && Placed(t, true, true)
    ensures Inv(Register(s, t))
  {
    var s', id := Register(s, t), |s.threads|;
    assert TableOk(s') by {
      assert id !in LocksAt(s.table, t.nextSlot);
      AppendKeepsTable(s.(threads := s'.threads), t.nextSlot, id);
    }
    forall i | 0 <= i < |s'.threads|
      ensures InPlace(s', i)
    {
      if i < id {
        StaysInPlace(s, s', i);
      } else {
        assert IsCurrent(s', i) && HasEntry(s', i);
      }
    }
  }

  /** Like a registration, but without a slot. */
  lemma OrphanKeepsInv(s: State, t: Incarnation)
    requires Inv(s) && t.handle !in s.tasks
    requires Recorded(t) && Placed(t, true, false)
    ensures Inv(s.(tasks := s.tasks[t.handle := |s.threads|], threads := s.threads + [t]))
  {
    var id := |s.threads|;
    var s' := s.(tasks := s.tasks[t.handle := id], threads := s.threads + [t]);
    forall i | 0 <= i < |s'.threads|
      ensures InPlace(s', i)
    {
      if i < id {
        StaysInPlace(s, s', i);
      } else {
        assert IsCurrent(s', i) && !HasEntry(s', i);
      }
    }
  }

  lemma NewThreadFits(r: Request, slot: int)
    ensures Recorded(NewThread(r, slot)) && Placed(NewThread(r, slot), true, true)
    ensures Recorded(Orphan(r, slot)) && Placed(Orphan(r, slot), true, false)
  {
    assert slot == slot + Periods(0, Frequency(r.interval));
  }

  /** Adding a task keeps the scheduler in order, even where it raises, or registers a slot that is already past. */
  lemma AddKeepsInv(s: State, r: Request)
    requires Inv(s)
    ensures Inv(AddStep(s, r))
  {
    RetireKeepsInv(s, r.handle);
    if AddRaises(s, r) {
      NewThreadFits(r, s.nextCount);
      OrphanKeepsInv(Retire(s, r.handle), Orphan(r, s.nextCount));
    } else {
      var slot := FirstSlot(s.nextCount, s.startTime, r.interval, r.alignment, r.delay);
      NewThreadFits(r, slot);
      RegisterKeepsInv(Retire(s, r.handle), NewThread(r, slot));
    }
  }

  /**
   Adding a task raises exactly when it finds the lock of the incarnation that it replaces released, or aligns to
   a zero interval; and exactly then it leaves an incarnation registered that has ended.
   */
  lemma AddLeavesOrphanIff(s: State, r: Request)
    requires Inv(s)
    ensures var s', id := AddStep(s, r), |s.threads|;
            IsCurrent(s', id) && (s'.threads[id].phase.Finished? <==> AddRaises(s, r))
  {
  }

  // ---- The timer

  lemma TimerKeepsPlaces(s: State, now: real, id: nat)
    requires Inv(s) && id < |s.threads|
    ensures InPlace(TimerStep(s, now), id)
  {
    assert InPlace(s, id);
    var s', t, current := TimerStep(s, now), s.threads[id], IsCurrent(s, id);
    assert IsCurrent(s', id) == current;
    if id in LocksAt(s.table, s.nextCount) {
      assert t.nextSlot == s.nextCount && HasEntry(s, id) && !HasEntry(s', id);
    } else {
      assert HasEntry(s', id) == HasEntry(s, id);
    }
  }

  lemma TimerKeepsInv(s: State, now: real)
    requires Inv(s)
    ensures Inv(TimerStep(s, now))
  {
    forall id: nat | id < |s.threads|
      ensures InPlace(TimerStep(s, now), id)
    {
      TimerKeepsPlaces(s, now, id);
    }
  }

  lemma ExitKeepsInv(s: State, id: nat)
    requires Inv(s) && Enabled(s, Exit(id))
    ensures Inv(Next(s, Exit(id)))
  {
    var s' := Next(s, Exit(id));
    forall i | 0 <= i < |s'.threads|
      ensures InPlace(s', i)
    {
      assert InPlace(s, i);
      assert IsCurrent(s', i) == (IsCurrent(s, i) && i != id);
      if i != id {
        StaysInPlace(s, s', i);
      }
    }
  }

  // ---- Runs

  ghost predicate StepTo(s: State, step: Step, s': State) {
    Enabled(s, step) && s' == Next(s, step)
  }

  ghost predicate Run(states: seq<State>, steps: seq<Step>) {
    && |states| == |steps| + 1
    && (exists now :: states[0] == InitialState(now))
    && forall i :: 0 <= i < |steps| ==> StepTo(states[i], steps[i], states[i + 1])
  }

  lemma StepKeepsInv(s: State, step: Step, s': State)
    requires Inv(s) && StepTo(s, step, s')
    ensures Inv(s')
  {
    match step
    case Add(r) => AddKeepsInv(s, r);
    case Remove(handle) => RemoveKeepsInv(s, handle);
    case Timer(now) => TimerKeepsInv(s, now);
    case Wake(id) => WakeKeepsInv(s, id);
    case Check(id) => CheckKeepsInv(s, id);
    case Finish(id, success) => FinishKeepsInv(s, id, success);
    case Reschedule(id) => RescheduleKeepsInv(s, id);
    case Exit(id) => ExitKeepsInv(s, id);
  }

  lemma {:induction false} RunsKeepInv(states: seq<State>, steps: seq<Step>, i: nat)
    requires Run(states, steps) && i < |states|
    ensures Inv(states[i])
  {
    if i > 0 {
      RunsKeepInv(states, steps, i - 1);
      StepKeepsInv(states[i - 1], steps[i - 1], states[i]);
    }
  }
}
