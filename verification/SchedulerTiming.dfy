/** The order of time: what the timer and the grids of slots keep, as long as no first slot is past. */
module SchedulerTiming {
  import opened Ticks
  import opened Alignment
  import opened SchedulerMachine
  import opened SchedulerInvariants

  // ---- Adding in time

  /** Adding raises, and so registers no slot, or registers one that is not past. */
  predicate AddsInTime(s: State, r: Request) {
    AddRaises(s, r) || FirstSlot(s.nextCount, s.startTime, r.interval, r.alignment, r.delay) >= s.nextCount
  }

  /** What a caller can see to: no delay into the past, and alignment of whole seconds only. */
  predicate IsPrompt(r: Request) {
    && r.delay > -TICK
    && (r.alignment.AlignedTo? && r.interval != 0.0 ==>
          r.interval > 0.0 && Whole(r.interval) && Fraction(r.alignment.zone) <= TICK)
  }

  lemma PromptAddsInTime(s: State, r: Request)
    requires IsPrompt(r)
    ensures AddsInTime(s, r)
  {
    if !AddRaises(s, r) {
      match r.alignment
      case Unaligned => UnalignedFirstSlot(s.nextCount, s.startTime, r.interval, r.delay);
      case AlignedTo(zone) => WholeIntervalsStartInTime(s.nextCount, s.startTime, r.interval, zone, r.delay);
    }
  }

  // ---- Steps

  lemma StaysPunctual(s: State, s': State, i: nat)
    requires i < |s.threads| && IsPunctual(s, i)
    requires i < |s'.threads| && s'.threads[i] == s.threads[i] && s'.nextCount == s.nextCount
    requires IsCurrent(s', i) ==> IsCurrent(s, i)
    requires HasEntry(s', i) == HasEntry(s, i)
    ensures IsPunctual(s', i)
  {
  }

  /** A step that changes one thread only, and leaves its handle and slots alone. */
  lemma ThreadStepKeepsTimely(s: State, id: nat, t': Incarnation)
    requires Timely(s) && id < |s.threads|
    requires t'.handle == s.threads[id].handle && t'.nextSlot == s.threads[id].nextSlot
    requires Punctual(t', IsCurrent(s, id), HasEntry(s, id), s.nextCount)
    ensures Timely(s.(threads := s.threads[id := t']))
  {
    var s' := s.(threads := s.threads[id := t']);
    forall i | 0 <= i < |s'.threads|
      ensures IsPunctual(s', i)
    {
      assert IsCurrent(s', i) == IsCurrent(s, i) && HasEntry(s', i) == HasEntry(s, i);
      if i != id {
        assert IsPunctual(s, i);
        StaysPunctual(s, s', i);
      }
    }
  }

  lemma WakeKeepsTimely(s: State, id: nat)
    requires Inv(s) && Timely(s) && Enabled(s, Wake(id))
    ensures Timely(Next(s, Wake(id)))
  {
    assert InPlace(s, id) && IsPunctual(s, id);
    ThreadStepKeepsTimely(s, id, s.threads[id].(locked := true, phase := Checking));
  }

  lemma CheckKeepsTimely(s: State, id: nat)
    requires Inv(s) && Timely(s) && Enabled(s, Check(id))
    ensures Timely(Next(s, Check(id)))
  {
    assert InPlace(s, id) && IsPunctual(s, id);
    ThreadStepKeepsTimely(s, id, s.threads[id].(phase := if IsCurrent(s, id) then Invoking else Exiting));
  }

  lemma FinishKeepsTimely(s: State, id: nat, success: bool)
    requires Timely(s) && Enabled(s, Finish(id, success))
    ensures Timely(Next(s, Finish(id, success)))
  {
    assert IsPunctual(s, id);
    ThreadStepKeepsTimely(s, id, FinishOne(s.threads[id], success));
  }

  lemma RescheduledLater(t: Incarnation, nextCount: int)
    requires Recorded(t) && t.phase.Rescheduling? && t.nextSlot < nextCount
    requires forall i, j :: 0 <= i < j < |t.slots| ==> t.slots[i] < t.slots[j]
    ensures var slots := t.slots + [NextSlot(t.nextSlot, t.frequency, nextCount)];
            forall i, j :: 0 <= i < j < |slots| ==> slots[i] < slots[j]
  {
    var slot := NextSlot(t.nextSlot, t.frequency, nextCount);
    NextSlotIsFirstOnGrid(t.nextSlot, t.frequency, nextCount);
    var slots := t.slots + [slot];
    forall i, j | 0 <= i < j < |slots|
      ensures slots[i] < slots[j]
    {
      if j == |t.slots| {
        assert t.slots[i] <= t.slots[|t.slots| - 1];
      }
    }
  }

  lemma RescheduleKeepsTimely(s: State, id: nat)
    requires Inv(s) && Timely(s) && Enabled(s, Reschedule(id))
    ensures Timely(Next(s, Reschedule(id)))
  {
    var s', t := Next(s, Reschedule(id)), s.threads[id];
    assert InPlace(s, id) && IsPunctual(s, id);
    RescheduledLater(t, s.nextCount);
    NextSlotOnGrid(t.nextSlot, t.frequency, s.nextCount);
    forall i | 0 <= i < |s'.threads|
      ensures IsPunctual(s', i)
    {
      assert IsCurrent(s', i) == IsCurrent(s, i);
      if i == id {
        assert HasEntry(s', id);
      } else {
        assert IsPunctual(s, i);
        StaysPunctual(s, s', i);
      }
    }
  }

  lemma RetireKeepsTimely(s: State, handle: string)
    requires Inv(s) && Timely(s)
    ensures Timely(Retire(s, handle))
  {
    if handle in s.tasks {
      var s', id := Retire(s, handle), s.tasks[handle];
      forall i | 0 <= i < |s'.threads|
        ensures IsPunctual(s', i)
      {
        assert HasEntry(s', i) == HasEntry(s, i);
        assert IsCurrent(s, id) && IsPunctual(s, i);
        assert IsCurrent(s', i) == (IsCurrent(s, i) && i != id);
      }
    }
  }

  lemma ClearKeepsTimely(s: State, id: nat)
    requires Inv(s) && Timely(s) && id < |s.threads| && !IsCurrent(s, id)
    ensures Timely(s.(table := ClearSlot(s.table, s.threads[id].nextSlot, id)))
  {
    var slot := s.threads[id].nextSlot;
    var s' := s.(table := ClearSlot(s.table, slot, id));
    if slot in s.table {
      RemoveFirstRemoves(s.table[slot], id);
    }
    forall i | 0 <= i < |s'.threads|
      ensures IsPunctual(s', i)
    {
      assert InPlace(s, i) && IsPunctual(s, i);
      assert IsCurrent(s', i) == IsCurrent(s, i);
      assert HasEntry(s', i) == (HasEntry(s, i) && i != id);
    }
  }

  lemma RemoveKeepsTimely(s: State, handle: string)
    requires Inv(s) && Timely(s)
    ensures Timely(RemoveStep(s, handle))
  {
    if handle in s.tasks {
      RetireKeepsInv(s, handle);
      RetireKeepsTimely(s, handle);
      var id := s.tasks[handle];
      assert s.threads[id].handle == handle;
      ClearKeepsTimely(Retire(s, handle), id);
    }
  }

  lemma RegisterKeepsTimely(s: State, t: Incarnation)
    requires Inv(s) && Timely(s) && t.handle !in s.tasks && t.nextSlot >= s.nextCount
    requires Punctual(t, true, true, s.nextCount)
    ensures Timely(Register(s, t))
  {
    var s', id := Register(s, t), |s.threads|;
    forall i | 0 <= i < |s'.threads|
      ensures IsPunctual(s', i)
    {
      if i < id {
        assert IsPunctual(s, i);
        StaysPunctual(s, s', i);
      } else {
        assert HasEntry(s', i);
      }
    }
  }

  lemma OrphanKeepsTimely(s: State, t: Incarnation)
    requires Inv(s) && Timely(s) && t.handle !in s.tasks && t.slots == [] && t.phase.Finished?
    ensures Timely(s.(tasks := s.tasks[t.handle := |s.threads|], threads := s.threads + [t]))
  {
    var id := |s.threads|;
    var s' := s.(tasks := s.tasks[t.handle := id], threads := s.threads + [t]);
    forall i | 0 <= i < |s'.threads|
      ensures IsPunctual(s', i)
    {
      if i < id {
        assert IsPunctual(s, i);
        StaysPunctual(s, s', i);
      }
    }
  }

  /** Adding a task keeps the order of time exactly when it raises, or registers a slot that is not past. */
  lemma AddKeepsTimelyIff(s: State, r: Request)
    requires Inv(s) && Timely(s)
    ensures Timely(AddStep(s, r)) <==> AddsInTime(s, r)
  {
    RetireKeepsInv(s, r.handle);
    RetireKeepsTimely(s, r.handle);
    if AddRaises(s, r) {
      OrphanKeepsTimely(Retire(s, r.handle), Orphan(r, s.nextCount));
    } else {
      var slot := FirstSlot(s.nextCount, s.startTime, r.interval, r.alignment, r.delay);
      if slot >= s.nextCount {
        RegisterKeepsTimely(Retire(s, r.handle), NewThread(r, slot));
      } else {
        assert slot in AddStep(s, r).table;
      }
    }
  }

  lemma ExitKeepsTimely(s: State, id: nat)
    requires Inv(s) && Timely(s) && Enabled(s, Exit(id))
    ensures Timely(Next(s, Exit(id)))
  {
    var s' := Next(s, Exit(id));
    forall i | 0 <= i < |s'.threads|
      ensures IsPunctual(s', i)
    {
      assert IsPunctual(s, i);
      assert IsCurrent(s', i) == (IsCurrent(s, i) && i != id);
    }
  }

  // ---- The timer

  /**
   The timer's step pops one slot and passes no other that is occupied; it moves on exactly when no slot before the
   one it pops is occupied.
   */
  lemma TimerAdvancesIff(s: State, now: real)
    requires Inv(s) && Enabled(s, Timer(now))
    ensures var s' := TimerStep(s, now);
            && s'.table == s.table - {s.nextCount}
            && IsAhead(s'.table, s'.nextCount)
            && (s'.nextCount > s.nextCount <==> IsAhead(s.table, s.nextCount))
  {
    var startTime := Rebased(s.startTime, s.nextTime, now);
    var x := (now + MAX_SLEEP - startTime) / TICK;
    assert x >= s.nextCount as real + 100.0;
    assert TickCount(now + MAX_SLEEP - startTime) >= x.Floor >= s.nextCount + 100;
    if !IsAhead(s.table, s.nextCount) {
      var slot :| slot in s.table && slot < s.nextCount;
      assert slot in s.table - {s.nextCount};
    }
  }

  /** A slot is popped no earlier than its time, unless the clock has been shifted. */
  lemma SlotsArePoppedInTime(s: State, now: real)
    requires Inv(s) && Enabled(s, Timer(now)) && s.nextTime - now <= TIME_SHIFT_LIMIT
    ensures now >= SlotTime(s.startTime, s.nextCount)
  {
  }

  lemma PunctualOutlastsTime(t: Incarnation, current: bool, entry: bool, nextCount: int, later: int)
    requires Punctual(t, current, entry, nextCount) && nextCount <= later
    ensures Punctual(t, current, entry, later)
  {
  }

  lemma TimerKeepsPunctual(s: State, now: real, id: nat)
    requires Inv(s) && Timely(s) && Enabled(s, Timer(now)) && id < |s.threads|
    ensures IsPunctual(TimerStep(s, now), id)
  {
    TimerAdvancesIff(s, now);
    assert InPlace(s, id) && IsPunctual(s, id);
    var s', t, current := TimerStep(s, now), s.threads[id], IsCurrent(s, id);
    assert IsCurrent(s', id) == current;
    if id in LocksAt(s.table, s.nextCount) {
      assert t.nextSlot == s.nextCount && HasEntry(s, id) && !HasEntry(s', id);
      PunctualOutlastsTime(TimerReleased(t), current, false, s.nextCount + 1, s'.nextCount);
    } else {
      assert HasEntry(s', id) == HasEntry(s, id);
      PunctualOutlastsTime(t, current, HasEntry(s, id), s.nextCount, s'.nextCount);
    }
  }

  lemma TimerKeepsTimely(s: State, now: real)
    requires Inv(s) && Timely(s) && Enabled(s, Timer(now))
    ensures Timely(TimerStep(s, now))
  {
    TimerAdvancesIff(s, now);
    forall id: nat | id < |s.threads|
      ensures IsPunctual(TimerStep(s, now), id)
    {
      TimerKeepsPunctual(s, now, id);
    }
  }

  // ---- Runs

  /** A run in which no task is added with a first slot that is past; adding may raise. */
  ghost predicate TimelyRun(states: seq<State>, steps: seq<Step>) {
    && Run(states, steps)
    && forall i :: 0 <= i < |steps| && steps[i].Add? ==> AddsInTime(states[i], steps[i].request)
  }

  lemma StepKeepsTimely(s: State, step: Step, s': State)
    requires Inv(s) && Timely(s) && StepTo(s, step, s') && (step.Add? ==> AddsInTime(s, step.request))
    ensures Timely(s')
  {
    match step
    case Add(r) => AddKeepsTimelyIff(s, r);
    case Remove(handle) => RemoveKeepsTimely(s, handle);
    case Timer(now) => TimerKeepsTimely(s, now);
    case Wake(id) => WakeKeepsTimely(s, id);
    case Check(id) => CheckKeepsTimely(s, id);
    case Finish(id, success) => FinishKeepsTimely(s, id, success);
    case Reschedule(id) => RescheduleKeepsTimely(s, id);
    case Exit(id) => ExitKeepsTimely(s, id);
  }

  lemma {:induction false} TimelyRunsStayTimely(states: seq<State>, steps: seq<Step>, i: nat)
    requires TimelyRun(states, steps) && i < |states|
    ensures Inv(states[i]) && Timely(states[i])
  {
    RunsKeepInv(states, steps, i);
    if i > 0 {
      TimelyRunsStayTimely(states, steps, i - 1);
      StepKeepsTimely(states[i - 1], steps[i - 1], states[i]);
    }
  }

  /** Runs in which every task that is added is prompt are timely. */
  lemma PromptRunsAreTimely(states: seq<State>, steps: seq<Step>)
    requires Run(states, steps) && forall i :: 0 <= i < |steps| && steps[i].Add? ==> IsPrompt(steps[i].request)
    ensures TimelyRun(states, steps)
  {
    forall i | 0 <= i < |steps| && steps[i].Add?
      ensures AddsInTime(states[i], steps[i].request)
    {
      PromptAddsInTime(states[i], steps[i].request);
    }
  }

  // ---- Progress of the timer

  function TimerSteps(steps: seq<Step>): nat {
    if steps == [] then 0
    else TimerSteps(steps[..|steps| - 1]) + if steps[|steps| - 1].Timer? then 1 else 0
  }

  predicate Progresses(s: State, step: Step, s': State) {
    s'.nextCount >= s.nextCount + if step.Timer? then 1 else 0
  }

  lemma StepProgresses(states: seq<State>, steps: seq<Step>, i: nat)
    requires TimelyRun(states, steps) && i < |steps|
    ensures Progresses(states[i], steps[i], states[i + 1])
  {
    TimelyRunsStayTimely(states, steps, i);
    assert StepTo(states[i], steps[i], states[i + 1]);
    if steps[i].Timer? {
      TimerAdvancesIff(states[i], steps[i].now);
    }
  }

  lemma TimerStepsSnoc(steps: seq<Step>, i: nat, j: nat)
    requires i <= j < |steps|
    ensures TimerSteps(steps[i..j + 1]) == TimerSteps(steps[i..j]) + if steps[j].Timer? then 1 else 0
  {
    assert steps[i..j + 1][..j - i] == steps[i..j];
  }

  lemma {:induction false} TimerProgress(states: seq<State>, steps: seq<Step>, i: nat, j: nat)
    requires |states| == |steps| + 1 && i <= j < |states|
    requires forall k :: i <= k < j ==> Progresses(states[k], steps[k], states[k + 1])
    ensures states[j].nextCount >= states[i].nextCount + TimerSteps(steps[i..j])
  {
    if i == j {
      assert steps[i..j] == [];
    } else {
      TimerProgress(states, steps, i, j - 1);
      assert Progresses(states[j - 1], steps[j - 1], states[j - 1 + 1]);
      TimerStepsSnoc(steps, i, j - 1);
    }
  }

  /** A slot is popped within a bounded number of timer steps, whatever else happens in between. */
  lemma SlotsAreReached(states: seq<State>, steps: seq<Step>, i: nat, j: nat, slot: int)
    requires TimelyRun(states, steps) && i <= j < |states|
    requires TimerSteps(steps[i..j]) > slot - states[i].nextCount
    ensures slot !in states[j].table
  {
    forall k | i <= k < j
      ensures Progresses(states[k], steps[k], states[k + 1])
    {
      StepProgresses(states, steps, k);
    }
    TimerProgress(states, steps, i, j);
    TimelyRunsStayTimely(states, steps, j);
  }

  /**
   In a timely run no task waits for ever: after as many timer steps as there are slots up to its own, and one more, a
   task that is registered and still waits for the same slot has had its lock released.
   */
  lemma WaitingTaskIsReleased(states: seq<State>, steps: seq<Step>, i: nat, j: nat, id: nat)
    requires TimelyRun(states, steps) && i <= j < |states| && IsCurrent(states[j], id)
    requires states[j].threads[id].phase.Waiting?
    requires TimerSteps(steps[i..j]) > states[j].threads[id].nextSlot - states[i].nextCount
    ensures !states[j].threads[id].locked && Enabled(states[j], Wake(id))
  {
    SlotsAreReached(states, steps, i, j, states[j].threads[id].nextSlot);
    RunsKeepInv(states, steps, j);
    assert InPlace(states[j], id);
  }

  /** Whatever tasks are added, the timer passes no occupied slot, and pops none before its time. */
  lemma NoSlotIsSkipped(states: seq<State>, steps: seq<Step>, i: nat)
    requires Run(states, steps) && i < |steps| && steps[i].Timer?
    ensures states[i + 1].table == states[i].table - {states[i].nextCount}
    ensures IsAhead(states[i + 1].table, states[i + 1].nextCount)
    ensures states[i].nextTime - steps[i].now <= TIME_SHIFT_LIMIT ==>
              steps[i].now >= SlotTime(states[i].startTime, states[i].nextCount)
  {
    RunsKeepInv(states, steps, i);
    assert StepTo(states[i], steps[i], states[i + 1]);
    TimerAdvancesIff(states[i], steps[i].now);
    if states[i].nextTime - steps[i].now <= TIME_SHIFT_LIMIT {
      SlotsArePoppedInTime(states[i], steps[i].now);
    }
  }

  /** In a timely run no slot is ever left behind, and the timer steps strictly forward. */
  lemma TimerStepsForward(states: seq<State>, steps: seq<Step>, i: nat)
    requires TimelyRun(states, steps) && i < |states|
    ensures IsAhead(states[i].table, states[i].nextCount)
    ensures i < |steps| && steps[i].Timer? ==> states[i + 1].nextCount > states[i].nextCount
  {
    TimelyRunsStayTimely(states, steps, i);
    if i < |steps| && steps[i].Timer? {
      assert StepTo(states[i], steps[i], states[i + 1]);
      TimerAdvancesIff(states[i], steps[i].now);
    }
  }

  // ---- Drift

  /** All slots that a task ever registers lie on the grid of its first one, none before an earlier one. */
  lemma SlotsStayOnGrid(states: seq<State>, steps: seq<Step>, i: nat, id: nat)
    requires Run(states, steps) && i < |states| && id < |states[i].threads|
    ensures var t := states[i].threads[id];
            && (t.slots != [] ==> t.slots[|t.slots| - 1] == t.nextSlot)
            && (forall j :: 0 <= j < |t.slots| ==> OnGrid(t.slots[0], t.frequency, t.slots[j]))
            && (forall j, k :: 0 <= j < k < |t.slots| ==> t.slots[j] <= t.slots[k])
  {
    RunsKeepInv(states, steps, i);
    assert InPlace(states[i], id);
  }

  /** In a timely run, each of them is later than the one before. */
  lemma SlotsDoNotDrift(states: seq<State>, steps: seq<Step>, i: nat, id: nat)
    requires TimelyRun(states, steps) && i < |states| && id < |states[i].threads|
    ensures var t := states[i].threads[id];
            && (t.slots != [] ==> t.slots[|t.slots| - 1] == t.nextSlot)
            && (forall j :: 0 <= j < |t.slots| ==> OnGrid(t.slots[0], t.frequency, t.slots[j]))
            && (forall j, k :: 0 <= j < k < |t.slots| ==> t.slots[j] < t.slots[k])
  {
    TimelyRunsStayTimely(states, steps, i);
    assert InPlace(states[i], id) && IsPunctual(states[i], id);
  }

  /**
   However long an invocation overruns, the task goes to the first slot on its grid that is neither past nor before
   the one it had; it is a later one exactly when the one it had is past, as it is in a timely run.
   */
  lemma RescheduledToFirstSlot(states: seq<State>, steps: seq<Step>, i: nat, id: nat)
    requires Run(states, steps) && i < |steps| && steps[i] == Reschedule(id)
    ensures id < |states[i].threads| && id < |states[i + 1].threads|
    ensures var t, slot := states[i].threads[id], states[i + 1].threads[id].nextSlot;
            && slot >= t.nextSlot && slot >= states[i].nextCount && OnGrid(t.nextSlot, t.frequency, slot)
            && (forall x :: OnGrid(t.nextSlot, t.frequency, x) && x >= states[i].nextCount && x >= t.nextSlot ==>
                  x >= slot)
            && id in LocksAt(states[i + 1].table, slot)
            && (slot > t.nextSlot <==> t.nextSlot < states[i].nextCount)
            && (TimelyRun(states, steps) ==> slot > t.nextSlot)
  {
    RunsKeepInv(states, steps, i);
    assert StepTo(states[i], steps[i], states[i + 1]);
    assert InPlace(states[i], id);
    var t := states[i].threads[id];
    NextSlotOnGrid(t.nextSlot, t.frequency, states[i].nextCount);
    if t.nextSlot < states[i].nextCount {
      NextSlotIsFirstOnGrid(t.nextSlot, t.frequency, states[i].nextCount);
    }
    if TimelyRun(states, steps) {
      TimelyRunsStayTimely(states, steps, i);
      assert IsPunctual(states[i], id);
    }
  }

  // ---- A slot in the past

  /** What the timer does when it wakes up on time: it goes to the earliest other slot, at most 100 slots on. */
  lemma PoppedSlot(s: State, next: int)
    requires s.nextTime == SlotTime(s.startTime, s.nextCount)
    requires if s.table.Keys <= {s.nextCount} then next == s.nextCount + 100
             else IsLeast(next, s.table.Keys - {s.nextCount}) && next <= s.nextCount + 100
    ensures Enabled(s, Timer(s.nextTime))
    ensures TimerStep(s, s.nextTime) ==
            State(next, s.startTime, SlotTime(s.startTime, next), s.table - {s.nextCount}, s.tasks,
                  ReleaseAll(s.threads, LocksAt(s.table, s.nextCount)))
  {
    var table := s.table - {s.nextCount};
    assert table.Keys == s.table.Keys - {s.nextCount};
    assert (s.nextTime + MAX_SLEEP - s.startTime) / TICK == (s.nextCount + 100) as real;
  }

  lemma AddedAlone(s: State, r: Request, slot: int)
    requires (r.alignment.AlignedTo? ==> r.interval != 0.0) && r.handle !in s.tasks && slot !in s.table
    requires FirstSlot(s.nextCount, s.startTime, r.interval, r.alignment, r.delay) == slot
    ensures AddStep(s, r) == State(s.nextCount, s.startTime, s.nextTime, s.table[slot := [|s.threads|]],
                                   s.tasks[r.handle := |s.threads|], s.threads + [NewThread(r, slot)])
  {
    assert [] + [|s.threads|] == [|s.threads|];
  }

  const START := 10.499

  /** A state of a run that starts at 10.499 seconds. */
  function At(nextCount: int, table: Table, tasks: map<string, nat>, threads: seq<Incarnation>): State {
    State(nextCount, START, SlotTime(START, nextCount), table, tasks, threads)
  }

  /** A task of ten ticks, from slot 5 on, and one that recurs at whole and half seconds. */
  const PUNCTUAL := Request("a", 0.01, Forever, 0, Unaligned, 0.005)
  const ALIGNED := Request("b", 0.5, Forever, 0, AlignedTo(0.0), 0.0)

  /** When 105 slots have passed, 11 seconds are next; but 10.5 is what the alignment finds. */
  lemma AlignedIsLate()
    ensures FirstSlot(105, START, 0.5, AlignedTo(0.0), 0.0) == 2
  {
    assert SlotTime(START, 105) == 10.604;
    FloorQuotient(10.604, 0.5, 21);
    assert Scaled(0.5, 21.0) == 10.5;
    assert AlignmentOffset(0.5, 0.0, 10.604) == 10;
  }

  /** The first task is being invoked, and the timer sleeps until slot 105. */
  lemma InvokedFromSlot5() returns (states: seq<State>, steps: seq<Step>)
    ensures Run(states, steps) && |steps| == 5
    ensures states[5] == At(105, map[], map["a" := 0], [NewThread(PUNCTUAL, 5).(phase := Invoking, releases := 1)])
  {
    var t := NewThread(PUNCTUAL, 5);
    var s0 := InitialState(START);
    var s1 := At(0, map[5 := [0]], map["a" := 0], [t]);
    var s2 := At(5, map[5 := [0]], map["a" := 0], [t]);
    var s3 := At(105, map[], map["a" := 0], [TimerReleased(t)]);
    var s4 := s3.(threads := [t.(phase := Checking, releases := 1)]);
    var s5 := s3.(threads := [t.(phase := Invoking, releases := 1)]);
    states, steps := [s0], [];
    AddedAlone(s0, PUNCTUAL, 5);
    states, steps := Extended(states, steps, Add(PUNCTUAL), s1);
    PoppedSlot(s1, 5);
    assert s1.table - {0} == s1.table;
    assert TimerStep(s1, s1.nextTime) == s2;
    states, steps := Extended(states, steps, Timer(s1.nextTime), s2);
    PoppedSlot(s2, 105);
    assert TimerStep(s2, s2.nextTime) == s3;
    states, steps := Extended(states, steps, Timer(s2.nextTime), s3);
    states, steps := Extended(states, steps, Wake(0), s4);
    states, steps := Extended(states, steps, Check(0), s5);
  }

  lemma Extended(states: seq<State>, steps: seq<Step>, step: Step, next: State)
      returns (states': seq<State>, steps': seq<Step>)
    requires Run(states, steps) && StepTo(states[|steps|], step, next)
    ensures Run(states', steps') && states' == states + [next] && steps' == steps + [step]
  {
    states', steps' := states + [next], steps + [step];
  }

  /** It is set back to slot 2 when a task that is aligned to half seconds is added. */
  lemma SetBackToSlot2(s5: State, t: Incarnation) returns (s6: State, s7: State)
    requires s5 == At(105, map[], map["a" := 0], [t])
    ensures StepTo(s5, Add(ALIGNED), s6) && StepTo(s6, Timer(s6.nextTime), s7) && s6.nextCount == 105
    ensures s7 == At(2, map[2 := [1]], map["a" := 0, "b" := 1], [t, NewThread(ALIGNED, 2)])
  {
    AlignedIsLate();
    AddedAlone(s5, ALIGNED, 2);
    s6 := At(105, map[2 := [1]], map["a" := 0, "b" := 1], [t, NewThread(ALIGNED, 2)]);
    assert AddStep(s5, ALIGNED) == s6;
    assert IsLeast(2, s6.table.Keys - {105});
    PoppedSlot(s6, 2);
    assert LocksAt(s6.table, 105) == [] && s6.table - {105} == s6.table;
    s7 := TimerStep(s6, s6.nextTime);
    assert s7.threads == s6.threads;
  }

  /**
   Adding a task that is aligned to half seconds, while another one is being invoked, may set the timer back, and let
   the other one register the slot again from which it was released.
   */
  lemma LateSlotRepeatsAnother() returns (states: seq<State>, steps: seq<Step>)
    ensures Run(states, steps) && |steps| == 9 && steps[5] == Add(ALIGNED) && steps[8] == Reschedule(0)
    ensures states[7].nextCount == 2 < states[6].nextCount == 105
    ensures |states[9].threads| == 2 && states[9].threads[0].slots == [5, 5]
  {
    states, steps := InvokedFromSlot5();
    var t := states[5].threads[0];
    var s6, s7 := SetBackToSlot2(states[5], t);
    states, steps := Extended(states, steps, Add(ALIGNED), s6);
    states, steps := Extended(states, steps, Timer(s6.nextTime), s7);
    var s8 := s7.(threads := s7.threads[0 := FinishOne(t, true)]);
    states, steps := Extended(states, steps, Finish(0, true), s8);
    states, steps := Extended(states, steps, Reschedule(0), RescheduleStep(s8, 0));
  }
}
