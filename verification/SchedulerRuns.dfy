/** The guarantees of the scheduler, over all of its runs. */
module SchedulerRuns {
  import opened Alignment
  import opened SchedulerMachine
  import opened SchedulerInvariants

  lemma StepOfRun(states: seq<State>, steps: seq<Step>, i: nat)
    requires Run(states, steps) && i < |steps|
    ensures Inv(states[i]) && StepTo(states[i], steps[i], states[i + 1])
  {
    RunsKeepInv(states, steps, i);
  }

  // ---- No wakeup is lost

  ghost predicate NoEntry(s: State, id: nat) {
    forall slot :: slot in s.table ==> id !in s.table[slot]
  }

  ghost predicate EntryAt(s: State, id: nat, slot: int, k: nat) {
    slot in s.table && k < |s.table[slot]| && s.table[slot][k] == id
  }

  ghost predicate OneEntry(s: State, id: nat) {
    exists slot, k :: EntryAt(s, id, slot, k) &&
      forall slot', k' :: EntryAt(s, id, slot', k') ==> slot' == slot && k' == k
  }

  predicate InLoopBody(phase: Phase) {
    phase.Checking? || phase.Invoking? || phase.Rescheduling?
  }

  /**
   At any time, whatever tasks were added, the current incarnation of a task that has not left its loop is
   either running, with its lock held and nothing in the table; or blocked on its lock, which is in the table
   exactly once; or about to run, its lock released and no longer in the table.
   */
  lemma NoWakeupIsLost(states: seq<State>, steps: seq<Step>, i: nat, id: nat)
    requires Run(states, steps) && i < |states| && IsCurrent(states[i], id)
    requires !states[i].threads[id].phase.Exiting? && !states[i].threads[id].phase.Finished?
    ensures var s := states[i];
            var t := s.threads[id];
            || (InLoopBody(t.phase) && t.locked && NoEntry(s, id))
            || (t.phase.Waiting? && t.locked && OneEntry(s, id))
            || (t.phase.Waiting? && !t.locked && NoEntry(s, id))
  {
    RunsKeepInv(states, steps, i);
    var s := states[i];
    assert InPlace(s, id);
    if HasEntry(s, id) {
      HeldEntryIsUnique(s, id);
    }
  }

  lemma HeldEntryIsUnique(s: State, id: nat)
    requires Inv(s) && HasEntry(s, id)
    ensures OneEntry(s, id)
  {
    var slot := s.threads[id].nextSlot;
    var k :| 0 <= k < |s.table[slot]| && s.table[slot][k] == id;
    assert EntryAt(s, id, slot, k);
    forall slot', k': nat | EntryAt(s, id, slot', k')
      ensures slot' == slot && k' == k
    {
      assert s.table[slot'][k'] in s.table[slot'];
    }
  }

  /** Each release by the timer leads to at most one invocation; and to just one, for a current task. */
  lemma EachReleaseInvokesOnce(states: seq<State>, steps: seq<Step>, i: nat, id: nat)
    requires Run(states, steps) && i < |states| && id < |states[i].threads|
    ensures var s := states[i];
            var t := s.threads[id];
            && Started(t) <= t.releases
            && (IsCurrent(s, id) && !t.phase.Exiting? ==>
                  t.releases == Started(t) +
                    if t.phase.Checking? || (t.phase.Waiting? && !t.locked) then 1 else 0)
  {
    RunsKeepInv(states, steps, i);
    assert InPlace(states[i], id);
  }

  // ---- Replaced and removed incarnations

  predicate StaysFormer(s: State, s': State, id: nat)
    requires id < |s.threads|
  {
    && id < |s'.threads| && !IsCurrent(s', id) && s'.threads[id].handle == s.threads[id].handle
    && Started(s'.threads[id]) == Started(s.threads[id])
  }

  lemma FormerDuringAdd(s: State, r: Request, id: nat)
    requires Inv(s) && id < |s.threads| && !IsCurrent(s, id)
    ensures StaysFormer(s, AddStep(s, r), id)
  {
  }

  lemma FormerDuringRemove(s: State, handle: string, id: nat)
    requires Inv(s) && id < |s.threads| && !IsCurrent(s, id)
    ensures StaysFormer(s, RemoveStep(s, handle), id)
  {
  }

  lemma FormerDuringTimer(s: State, now: real, id: nat)
    requires id < |s.threads| && !IsCurrent(s, id)
    ensures StaysFormer(s, TimerStep(s, now), id)
  {
  }

  lemma FormerStaysFormer(s: State, step: Step, s': State, id: nat)
    requires Inv(s) && StepTo(s, step, s') && id < |s.threads| && !IsCurrent(s, id)
    ensures StaysFormer(s, s', id)
  {
    assert InPlace(s, id);
    match step
    case Add(r) => FormerDuringAdd(s, r, id);
    case Remove(handle) => FormerDuringRemove(s, handle, id);
    case Timer(now) => FormerDuringTimer(s, now, id);
    case Wake(_) =>
    case Check(_) =>
    case Finish(_, _) =>
    case Reschedule(_) =>
    case Exit(_) =>
  }

  /** Once replaced or removed, an incarnation never begins another invocation. */
  lemma {:induction false} FormerNeverInvokes(states: seq<State>, steps: seq<Step>, i: nat, j: nat, id: nat)
    requires Run(states, steps) && i <= j < |states| && id < |states[i].threads| && !IsCurrent(states[i], id)
    ensures id < |states[j].threads| && !IsCurrent(states[j], id)
    ensures Started(states[j].threads[id]) == Started(states[i].threads[id])
  {
    if i < j {
      FormerNeverInvokes(states, steps, i, j - 1, id);
      StepOfRun(states, steps, j - 1);
      FormerStaysFormer(states[j - 1], steps[j - 1], states[j], id);
    }
  }

  /** How many steps a former incarnation has ahead of it. */
  function StepsLeft(phase: Phase): nat {
    match phase
    case Invoking => 5
    case Rescheduling => 4
    case Waiting => 3
    case Checking => 2
    case Exiting => 1
    case Finished => 0
  }

  /** The next step of a former incarnation's own thread; a running invocation ends as it will. */
  function OwnStep(id: nat, phase: Phase, success: bool): Step
    requires !phase.Finished?
  {
    match phase
    case Invoking => Finish(id, success)
    case Rescheduling => Reschedule(id)
    case Waiting => Wake(id)
    case Checking => Check(id)
    case Exiting => Exit(id)
  }

  /** The thread of a former incarnation is never stuck: its next step is possible, and brings it closer to its end. */
  lemma FormerCanStep(s: State, id: nat, success: bool)
    requires Inv(s) && id < |s.threads| && !IsCurrent(s, id) && !s.threads[id].phase.Finished?
    ensures var step := OwnStep(id, s.threads[id].phase, success);
            && Enabled(s, step)
            && id < |Next(s, step).threads|
            && StepsLeft(Next(s, step).threads[id].phase) < StepsLeft(s.threads[id].phase)
  {
    assert InPlace(s, id);
  }

  /** The states and steps from `s` by which thread `id` alone runs to its end. */
  lemma FormerReachesExit(s: State, id: nat, success: bool) returns (states: seq<State>, steps: seq<Step>)
    requires Inv(s) && id < |s.threads| && !IsCurrent(s, id)
    ensures |states| == |steps| + 1 && states[0] == s && |steps| <= StepsLeft(s.threads[id].phase)
    ensures forall i :: 0 <= i < |steps| ==>
              id < |states[i].threads| && !states[i].threads[id].phase.Finished?
              && steps[i] == OwnStep(id, states[i].threads[id].phase, success)
              && StepTo(states[i], steps[i], states[i + 1])
    ensures id < |states[|steps|].threads| && states[|steps|].threads[id].phase.Finished?
    ensures Started(states[|steps|].threads[id]) == Started(s.threads[id])
    decreases StepsLeft(s.threads[id].phase)
  {
    if s.threads[id].phase.Finished? {
      states, steps := [s], [];
    } else {
      var step := OwnStep(id, s.threads[id].phase, success);
      FormerCanStep(s, id, success);
      var s' := Next(s, step);
      StepKeepsInv(s, step, s');
      FormerStaysFormer(s, step, s', id);
      var states', steps' := FormerReachesExit(s', id, success);
      states, steps := [s] + states', [step] + steps';
    }
  }

  // ---- The number of invocations

  lemma {:induction false} TrailingMeans(outcomes: seq<bool>, k: nat)
    ensures Trailing(outcomes) >= k <==>
            k <= |outcomes| && forall i :: |outcomes| - k <= i < |outcomes| ==> !outcomes[i]
  {
    if outcomes != [] && !outcomes[|outcomes| - 1] && k > 0 {
      var n := |outcomes| - 1;
      TrailingMeans(outcomes[..n], k - 1);
      assert forall i :: 0 <= i < n ==> outcomes[..n][i] == outcomes[i];
    }
  }

  /** A negative number of retries is none. */
  function Retries(maxRetries: int): nat {
    if maxRetries > 0 then maxRetries else 0
  }

  /** The number of invocations after which a task with the given outcomes ends. */
  ghost predicate EndsAfter(repeats: Repeats, maxRetries: int, outcomes: seq<bool>, n: nat) {
    && n <= |outcomes|
    && (|| (repeats.Times? && n >= repeats.n)
        || (Retries(maxRetries) < n && forall i :: n - 1 - Retries(maxRetries) <= i < n ==> !outcomes[i]))
  }

  /** In these terms, a task stops as requested, or once it has failed once more in a row than it may be retried. */
  lemma StopsAtMeans(repeats: Repeats, maxRetries: int, outcomes: seq<bool>)
    ensures StopsAt(repeats, maxRetries, outcomes) <==> EndsAfter(repeats, maxRetries, outcomes, |outcomes|)
  {
    TrailingMeans(outcomes, Retries(maxRetries) + 1);
    TrailingMeans(outcomes, 1);
  }

  lemma PrefixEnds(repeats: Repeats, maxRetries: int, outcomes: seq<bool>, n: nat)
    requires n <= |outcomes|
    ensures StopsAt(repeats, maxRetries, outcomes[..n]) <==> EndsAfter(repeats, maxRetries, outcomes, n)
  {
    StopsAtMeans(repeats, maxRetries, outcomes[..n]);
    assert forall i :: 0 <= i < n ==> outcomes[..n][i] == outcomes[i];
  }

  /**
   A task that is left registered is invoked exactly as often as it should be: when it leaves its loop,
   the number of its invocations is the least at which it is to end, and while it has not, that number
   has not been reached.
   */
  lemma InvokedAsOftenAsRequested(states: seq<State>, steps: seq<Step>, i: nat, id: nat)
    requires Run(states, steps) && i < |states| && IsCurrent(states[i], id)
    ensures var t := states[i].threads[id];
            && (forall n :: 0 <= n < |t.outcomes| ==> !EndsAfter(t.repeats, t.maxRetries, t.outcomes, n))
            && (t.phase.Exiting? ==> EndsAfter(t.repeats, t.maxRetries, t.outcomes, |t.outcomes|))
            && (t.phase.Waiting? || t.phase.Checking? || t.phase.Invoking? ==>
                  !EndsAfter(t.repeats, t.maxRetries, t.outcomes, |t.outcomes|))
  {
    RunsKeepInv(states, steps, i);
    assert InPlace(states[i], id);
    var t := states[i].threads[id];
    forall n: nat | n < |t.outcomes|
      ensures !EndsAfter(t.repeats, t.maxRetries, t.outcomes, n)
    {
      PrefixEnds(t.repeats, t.maxRetries, t.outcomes, n);
    }
    StopsAtMeans(t.repeats, t.maxRetries, t.outcomes);
  }

  // ---- A replacement that fails

  /** Its incarnation has ended without ever having had a slot, or having been invoked. */
  ghost predicate IsOrphan(s: State, id: nat) {
    && IsCurrent(s, id) && s.threads[id].phase.Finished?
    && NoEntry(s, id) && s.threads[id].outcomes == [] && s.threads[id].releases == 0
  }

  /** An incarnation that is registered and has ended is one left by an addition that raised. */
  lemma EndedIsOrphan(s: State, id: nat)
    requires Inv(s) && IsCurrent(s, id) && s.threads[id].phase.Finished?
    ensures IsOrphan(s, id)
  {
    assert InPlace(s, id);
  }

  /** Adding a task orphans it exactly when adding raises. */
  lemma AddOrphansIff(s: State, r: Request)
    requires Inv(s)
    ensures IsOrphan(AddStep(s, r), |s.threads|) <==> AddRaises(s, r)
  {
    AddLeavesOrphanIff(s, r);
    AddKeepsInv(s, r);
    if AddRaises(s, r) {
      EndedIsOrphan(AddStep(s, r), |s.threads|);
    }
  }

  lemma FinishedStaysFinished(s: State, step: Step, s': State, id: nat)
    requires Inv(s) && StepTo(s, step, s') && id < |s.threads| && s.threads[id].phase.Finished?
    ensures id < |s'.threads| && s'.threads[id].phase.Finished? && Started(s'.threads[id]) == Started(s.threads[id])
  {
    assert InPlace(s, id);
  }

  lemma OrphanStep(s: State, step: Step, s': State, id: nat)
    requires Inv(s) && StepTo(s, step, s') && Inv(s') && id < |s.threads| && s.threads[id].phase.Finished?
    ensures id < |s'.threads| && s'.threads[id].phase.Finished? && Started(s'.threads[id]) == Started(s.threads[id])
    ensures IsCurrent(s', id) ==> IsOrphan(s', id)
  {
    FinishedStaysFinished(s, step, s', id);
    if IsCurrent(s', id) {
      EndedIsOrphan(s', id);
    }
  }

  /** An orphaned task is never invoked: as long as it is registered it stays ended, and without a slot. */
  lemma {:induction false} OrphansStayOrphans(states: seq<State>, steps: seq<Step>, i: nat, j: nat, id: nat)
    requires Run(states, steps) && i <= j < |states| && IsOrphan(states[i], id)
    ensures id < |states[j].threads| && states[j].threads[id].phase.Finished? && Started(states[j].threads[id]) == 0
    ensures IsCurrent(states[j], id) ==> IsOrphan(states[j], id)
  {
    if i < j {
      OrphansStayOrphans(states, steps, i, j - 1, id);
      StepOfRun(states, steps, j - 1);
      RunsKeepInv(states, steps, j);
      OrphanStep(states[j - 1], steps[j - 1], states[j], id);
    }
  }

  /**
   Replacing a task in the moment between the release of its lock and its waking up raises, and orphans the task:
   it is never invoked again.
   */
  lemma ReplacingReleasedTaskOrphansIt(r: Request) returns (states: seq<State>, steps: seq<Step>)
    requires r.repeats.Forever? && r.alignment.Unaligned? && r.delay == 0.0
    ensures Run(states, steps) && |steps| == 3 && steps[0] == steps[2] == Add(r) && steps[1].Timer?
    ensures AddRaises(states[2], r) && IsOrphan(states[3], |states[2].threads|)
  {
    var s0 := InitialState(0.0);
    var s1 := AddStep(s0, r);
    var s2 := TimerStep(s1, 0.0);
    var s3 := AddStep(s2, r);
    states, steps := [s0, s1, s2, s3], [Add(r), Timer(0.0), Add(r)];
    assert FirstSlot(0, 0.0, r.interval, r.alignment, r.delay) == 0;
    assert s1.tasks[r.handle] == 0 && LocksAt(s1.table, 0) == [0];
    assert StepTo(s0, Add(r), s1) && StepTo(s1, Timer(0.0), s2) && StepTo(s2, Add(r), s3);
    assert Run(states, steps);
    assert !s2.threads[0].locked;
    RunsKeepInv(states, steps, 2);
    AddOrphansIff(s2, r);
  }
}
